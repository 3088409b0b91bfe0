/** The page state that `main.js` keeps outside the DOM tree proper: the `data-theme`
    attribute of the root element and the string items of `localStorage`. Covers the
    saved-theme restore at load, `toggleTheme()`, `logout()` and the storage read in
    `checkAuth()`. */
module Session {
  import opened Strings
  import Auth

  /** `currentTheme === 'dark' ? 'light' : 'dark'`: the theme a toggle switches to. */
  function NextTheme(current: Option<string>): (next: string)
    ensures next == "light" || next == "dark"
    ensures next == "light" <==> current == Some("dark")
  {
    if current == Some("dark") then "light" else "dark"
  }

  /** Toggling twice from either theme returns to it. */
  lemma ToggleTwice(theme: string)
    requires theme == "dark" || theme == "light"
    ensures NextTheme(Some(NextTheme(Some(theme)))) == theme
  {
  }

  /** The items `logout()` deletes. */
  const SessionKeys: set<string> := {"isLoggedIn", "userName", "userEmail", "userRole"}

  /** `localStorage.getItem(key)`: `None` for the `null` of a missing key. */
  function GetItem(storage: map<string, string>, key: string): (item: Option<string>)
    ensures item.Some? <==> key in storage
    ensures item.Some? ==> item.value == storage[key]
  {
    if key in storage then Some(storage[key]) else None
  }

  class Page {
    /** `document.documentElement.getAttribute('data-theme')`. */
    var dataTheme: Option<string>
    /** The items of `localStorage`. */
    var localStorage: map<string, string>

    /** Loading the script: a truthy saved `theme` item is copied onto the root element;
        otherwise the attribute keeps what the markup gave it. */
    constructor Load(markupTheme: Option<string>, stored: map<string, string>)
      ensures localStorage == stored
      ensures Truthy(GetItem(stored, "theme")) ==> dataTheme == Some(stored["theme"])
      ensures !Truthy(GetItem(stored, "theme")) ==> dataTheme == markupTheme
    {
      localStorage := stored;
      var savedTheme := GetItem(stored, "theme");
      if Truthy(savedTheme) {
        dataTheme := savedTheme;
      } else {
        dataTheme := markupTheme;
      }
    }

    /** `localStorage.setItem(key, value)`. */
    method SetItem(key: string, value: string)
      modifies this
      ensures localStorage == old(localStorage)[key := value]
      ensures dataTheme == old(dataTheme)
    {
      localStorage := localStorage[key := value];
    }

    /** `localStorage.removeItem(key)`; removing a missing key changes nothing. */
    method RemoveItem(key: string)
      modifies this
      ensures localStorage == old(localStorage) - {key}
      ensures dataTheme == old(dataTheme)
    {
      localStorage := localStorage - {key};
    }

    /** `toggleTheme()`: flips the attribute between dark and light (anything else,
        a missing attribute included, becomes dark) and stores the new value under
        `theme`; every other item is left as it was. */
    method ToggleTheme()
      modifies this
      ensures dataTheme == Some(NextTheme(old(dataTheme)))
      ensures localStorage == old(localStorage)["theme" := NextTheme(old(dataTheme))]
      ensures GetItem(localStorage, "theme") == dataTheme
    {
      var newTheme := NextTheme(dataTheme);
      dataTheme := Some(newTheme);
      SetItem("theme", newTheme);
    }

    /** `logout()`, without its navigation: deletes the four session items one after
        another. Exactly those keys go; every other key keeps its value. */
    method Logout()
      modifies this
      ensures localStorage == old(localStorage) - SessionKeys
      ensures forall k :: k in SessionKeys ==> k !in localStorage
      ensures forall k :: k !in SessionKeys ==>
                GetItem(localStorage, k) == GetItem(old(localStorage), k)
      ensures dataTheme == old(dataTheme)
    {
      RemoveItem("isLoggedIn");
      RemoveItem("userName");
      RemoveItem("userEmail");
      RemoveItem("userRole");
    }

    /** `checkAuth()`: whether the page at `pathname` sends the visitor to `login.html`,
        reading the `isLoggedIn` item from storage. */
    method CheckAuth(pathname: string) returns (redirect: bool)
      ensures redirect <==> Auth.ShouldRedirect(pathname, GetItem(localStorage, "isLoggedIn"))
    {
      var page := Auth.CurrentPage(pathname);
      if page !in Auth.PublicPages {
        var isLoggedIn := GetItem(localStorage, "isLoggedIn");
        redirect := !Truthy(isLoggedIn);
      } else {
        redirect := false;
      }
    }
  }

  /** After logging out, every private page redirects. */
  lemma LoggedOutPrivatePageRedirects(storage: map<string, string>, head: string, page: string)
    requires '/' !in page && page !in Auth.PublicPages
    ensures Auth.ShouldRedirect(head + "/" + page, GetItem(storage - SessionKeys, "isLoggedIn"))
  {
    Auth.PrivatePageRedirects(head, page);
  }
}
