# LearnHub LMS front-end script — a Dafny model

`lms/lms/js/main.js` is the browser script of the LearnHub learning-management front end.
Most of it wires DOM events. This project models the parts whose behaviour can be stated
exactly and proves what they promise:

- **Duration formatter** (`formatDuration`), in module `Duration`. A count of seconds
  becomes `H:MM:SS`, or `M:SS` below one hour. The model proves:
  - the hours/minutes/seconds decomposition;
  - the exact shape of the output;
  - a parser that reads every output back to the original count.
- **Form checks** (`validateEmail`, `validatePassword`, `validateForm`), in module
  `Validation`.
  - The e-mail regular expression `^[^\s@]+@[^\s@]+\.[^\s@]+$` is a predicate over
    characters. It is proved equal to the pattern's language `L "@" D "." T`.
  - `validateForm` is a method that appends messages one check at a time, as the script
    does.
- **Authentication gate** (`checkAuth`), in module `Auth`. The last path segment comes
  from a model of `String.prototype.split`. The decision is "redirect to `login.html`" or
  not.
- **Page session state**, in module `Session`. A class `Page` holds the root element's
  `data-theme` attribute and the `localStorage` items. It covers the saved-theme restore
  at load, `toggleTheme`, `logout` (key removal) and the storage read of `checkAuth`.
- **Toast notifications** (`showNotification`), in module `Toasts`. A class
  `NotificationCenter` holds:
  - the number of notification containers;
  - the toast nodes in document order;
  - an id counter that stands in for DOM node identity.

  Notifying appends a toast. The 5000 ms callback and the 300 ms callback are events that
  the host fires. The close button and the 300 ms callback both end in
  `notification.remove()`, so both are modelled by `Remove`.
- Shared text helpers, in module `Strings`: `split` on one character, `Number.toString()`
  on non-negative integers, `padStart(2, '0')`, and JavaScript truthiness of a string
  that may be missing.

Three behaviours of the script worth stating:
- A toast's icon and colour come from looking the type up in an object literal. An
  unknown type renders the text `undefined`; it does not fall back to `info`. A type that
  names a member inherited from `Object.prototype` finds that member instead:
  - `constructor`, `toString` and the other built-in methods give a built-in function's
    source text;
  - `__proto__` gives `[object Object]`.
- Closing a toast does not cancel its timers. They still fire later, and both callbacks
  then leave the document unchanged: they act only on the detached node.
- The container is never removed, even when it becomes empty.

## Model

| member | source | states |
|---|---|---|
| Duration.Decompose | lms/lms/js/main.js:476-479 | hours*3600 + minutes*60 + secs equals the input, with minutes and secs both below 60 |
| Duration.DecomposeUnique | lms/lms/js/main.js:476-479 | any decomposition with both fields below 60 is the one the formatter computes |
| Duration.FormatDurationShape | lms/lms/js/main.js:481-484 | three colon-separated fields iff the input is at least 3600, otherwise two; hours and the no-hours minutes are unpadded decimals with no leading zero; the MM and SS fields are exactly two digits; each field reads back as hours, minutes and seconds |
| Duration.FormatDuration | lms/lms/js/main.js:476-485 | parsing the formatted text gives back the original number of seconds |
| Duration.Render | lms/lms/js/main.js:481-484 | `H:MM:SS` has at least seven characters and `M:SS` at least four; both end in ':' followed by the two-digit seconds |
| Duration.RenderRoundTrip | lms/lms/js/main.js:481-484 | parsing a rendering of any fields with minutes and seconds below 60 gives hours*3600 + minutes*60 + secs |
| Duration.RenderWithHours | lms/lms/js/main.js:481-482 | with hours present, the text splits at ':' into the hours digits, two-digit minutes and two-digit seconds |
| Duration.RenderWithoutHours | lms/lms/js/main.js:484 | with no hours, the text splits at ':' into the unpadded minutes and two-digit seconds |
| Duration.FormatDurationInjective | lms/lms/js/main.js:476-485 | two different durations never format to the same text |
| Strings.Truthy | lms/lms/js/main.js:276-284 | a string-or-missing value is falsy exactly when it is missing (`null`/`undefined`) or the empty string |
| Strings.NatToString | lms/lms/js/main.js:482-484 | `toString()` of a non-negative integer: non-empty decimal digits, a leading '0' only for zero, one digit exactly below 10 |
| Strings.ParseNatToString | lms/lms/js/main.js:482-484 | reading the decimal rendering back gives the number |
| Strings.PadStart2 | lms/lms/js/main.js:482 | `padStart(2, '0')`: length max(2, len), the original text as suffix, zeros before it |
| Strings.TwoDigits | lms/lms/js/main.js:482-484 | the MM/SS field of a number below 100 is two digits that read back as that number |
| Strings.TwoDigitsIsPadStart | lms/lms/js/main.js:482-484 | the two-digit field equals `n.toString().padStart(2, '0')` |
| Strings.Split | lms/lms/js/main.js:435 | `split` on one character yields at least one piece, and no piece contains the separator |
| Strings.SplitNoSeparator | lms/lms/js/main.js:435 | text without the separator splits into itself alone |
| Strings.SplitAtFirst | lms/lms/js/main.js:435 | splitting at the first separator yields the separator-free prefix, then the pieces of the rest |
| Strings.LastPieceAfterSeparator | lms/lms/js/main.js:435 | after `split('/')` the last piece (`pop()`) is the text after the last separator, and there are at least two pieces |
| Validation.ValidateEmail | lms/lms/js/main.js:264-267 | an accepted address has at least five characters and does not start with '@' |
| Validation.ValidateEmailIsPattern | lms/lms/js/main.js:264-266 | `validateEmail` is true iff the text is `L "@" D "." T` with L, D, T non-empty and free of white space and '@' (D may hold dots) |
| Validation.AcceptedHasShape | lms/lms/js/main.js:264-266 | every accepted address decomposes as `L "@" D "." T` |
| Validation.ShapeIsAccepted | lms/lms/js/main.js:264-266 | every `L "@" D "." T` decomposition is accepted |
| Validation.ValidEmailHasOneAt | lms/lms/js/main.js:264-266 | an accepted address has exactly one '@' and no white-space character |
| Validation.ValidateForm | lms/lms/js/main.js:273-289 | at most three messages, each one of the three fixed texts, in the fixed order email, password length, mismatch; each message is present iff its field is truthy and its check fails (password length below 8; a confirmation that differs from the password); all-empty or absent fields give no message |
| Validation.ValidatePassword | lms/lms/js/main.js:269-271 | an accepted password is a truthy string, so the guard at line 280 never skips one |
| Validation.PasswordFailsIff | lms/lms/js/main.js:280-282 | the password message is due iff a password is given with one to seven characters |
| Auth.CurrentPage | lms/lms/js/main.js:435 | the current page name contains no '/' |
| Auth.CurrentPageIsLastSegment | lms/lms/js/main.js:435 | the current page is the text after the last '/', or the whole path when there is none |
| Auth.ShouldRedirect | lms/lms/js/main.js:434-440 | a redirect happens iff the last segment is not one of index.html, login.html, register.html, "" and the isLoggedIn item is missing or empty |
| Auth.TrailingSlashNeverRedirects | lms/lms/js/main.js:434-437 | a path ending in '/' never redirects |
| Auth.LoggedInNeverRedirects | lms/lms/js/main.js:438-440 | a non-empty isLoggedIn item never redirects |
| Auth.PrivatePageRedirects | lms/lms/js/main.js:434-441 | a non-public last segment with a missing or empty flag always redirects |
| Session.NextTheme | lms/lms/js/main.js:369 | the new theme is "light" iff the current one is "dark"; anything else, a missing attribute included, gives "dark" |
| Session.ToggleTwice | lms/lms/js/main.js:367-372 | toggling twice from "dark" or "light" returns to it |
| Session.GetItem | lms/lms/js/main.js:438 | `localStorage.getItem` is present iff the key is stored, and then it is the stored value |
| Session.Page.Load | lms/lms/js/main.js:376-380 | at load, a truthy saved theme becomes the attribute; otherwise the attribute keeps its markup value |
| Session.Page.SetItem | lms/lms/js/main.js:371 | storing a key changes that key only |
| Session.Page.RemoveItem | lms/lms/js/main.js:423-426 | removing a key deletes that key only; a missing key changes nothing |
| Session.Page.ToggleTheme | lms/lms/js/main.js:367-372 | the attribute becomes the next theme; the stored "theme" item equals the attribute set; no other item changes |
| Session.Page.Logout | lms/lms/js/main.js:422-426 | exactly isLoggedIn, userName, userEmail and userRole are removed; every other key keeps its value; the theme is unchanged |
| Session.Page.CheckAuth | lms/lms/js/main.js:433-443 | the redirect decision on the stored isLoggedIn item |
| Session.LoggedOutPrivatePageRedirects | lms/lms/js/main.js:422-443 | after logout, every private page redirects, whatever else is stored |
| Toasts.Icon | lms/lms/js/main.js:229-244 | the four severities give an `fa-` class; the text is "undefined" iff the type is neither a severity nor a name inherited from `Object.prototype`; it is a built-in's source text iff the type names an inherited method |
| Toasts.Colour | lms/lms/js/main.js:236-244 | the four severities give a seven-character `#rrggbb` colour (lower-case hex digits after the '#'); "undefined" and built-in source text under the same conditions as the icon |
| Toasts.StylesDistinct | lms/lms/js/main.js:229-241 | the four severities have pairwise different icons and colours |
| Toasts.Without | lms/lms/js/main.js:246-256 | after `remove()` the toasts are exactly the earlier ones without that id |
| Toasts.Fade | lms/lms/js/main.js:254-255 | the 5000 ms callback keeps every toast's id, message and kind and the order; it sets the fade-out phase on the toast with that id and leaves every other toast unchanged |
| Toasts.FadeAbsent | lms/lms/js/main.js:254-255 | the 5000 ms callback of a toast that is already closed changes nothing |
| Toasts.WithoutAppend | lms/lms/js/main.js:246-256 | removal commutes with concatenation, so surviving toasts keep their relative order |
| Toasts.WithoutIdempotent | lms/lms/js/main.js:246-256 | removing an already-removed toast is a no-op |
| Toasts.WithoutAbsent | lms/lms/js/main.js:246-256 | removing an id that is not present changes nothing |
| Toasts.WithoutOne | lms/lms/js/main.js:246-256 | with unique ids, removal deletes exactly the one toast at its position, and nothing else |
| Toasts.DropIncreasing | lms/lms/js/main.js:246-256 | deleting one toast keeps the creation order of the rest |
| Toasts.FadeThenRemove | lms/lms/js/main.js:253-257 | the fade then the 300 ms removal end as a plain removal: the toast is gone and nothing else changed |
| Toasts.NotificationCenter.constructor | lms/lms/js/main.js:198-199 | before the first notification there is no container and no toast |
| Toasts.NotificationCenter.Notify | lms/lms/js/main.js:196-251 | a container exists afterwards and there is at most one; the new toast, shown and with a fresh id, goes at the end; the id is the counter's value and the counter advances, so no id is ever reused, even after a close; earlier toasts stay in place and in order; the type defaults to "info" |
| Toasts.NotificationCenter.StartFadeOut | lms/lms/js/main.js:254-255 | the toast starts fading; on a closed toast nothing changes |
| Toasts.NotificationCenter.Remove | lms/lms/js/main.js:246-256 | the close button or the 300 ms callback detaches that toast only, and the container stays |
| Toasts.TwoToasts | lms/lms/js/main.js:196-258 | two notifications share one container and the first has the smaller id; after the first is closed and its late timers fire, exactly the second toast remains, unchanged (id, message "B", type "info", shown) |
| Toasts.LateTimersSpareNewToast | lms/lms/js/main.js:196-258 | a toast shown after an earlier one was closed gets a different id, and the closed toast's late 5000 ms and 300 ms callbacks leave it shown and in place |

## Left out

- Event wiring and styling are not modelled: the mobile menu, smooth scrolling, dropdowns,
  `togglePassword`, the search box with its `alert`, `initNotifications`, the injected CSS
  and the `IntersectionObserver` fade-ins. They are DOM glue with no state to reason about.
- `debounce`, `animateProgressBars` and `animateCounters` are not modelled. Their point is
  timing, and the counter animation uses floating-point steps.
- `formatFileSize` (logarithms, powers and `toFixed`) and `formatDate` (locale formatting)
  are not modelled. They rest on floating point and foreign libraries.
- The `storage` wrapper (`JSON.stringify`/`JSON.parse` and its exception handling) is not
  modelled. Exceptions from `localStorage` itself, such as a full quota, are not modelled
  either.
- `copyToClipboard` and `printCertificate` are browser calls and are not modelled.
- Navigation is not modelled. The assignment `window.location.href = 'login.html'` in
  `logout` and `checkAuth` is outside the model. `CheckAuth` returns whether it would
  navigate, and `Logout` models only the key removals.
- The toast markup is not modelled: the `innerHTML` template and its unescaped message,
  the inline styles and the slide-in animation. The real timers are also out: the
  5000 ms and 300 ms delays are events in any order the host chooses.
- Toasts.Icon: for a type naming an inherited built-in method, the model records only the
  key looked up, not the function it finds (`constructor` finds `Object`). The exact source text (`function toString() { [native code] }`) depends
  on the engine. Toasts.Colour has the same gap.
- Duration.FormatDuration: takes a non-negative integer. The script's results for
  negative, fractional or very large (beyond 2^53) numbers are not modelled.
- Validation.ValidatePassword: measures length in Unicode scalar values. JavaScript counts
  UTF-16 code units, so a character outside the Basic Multilingual Plane counts once here
  and twice in the script.
- Validation.ValidateForm: fields are strings or missing. `null` and `undefined` are both
  "missing", and non-string property values are not modelled.
