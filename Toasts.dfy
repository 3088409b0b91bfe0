/** `showNotification(message, type)` of `main.js`: toasts in one lazily created
    container, appended at the end, removed by their close button or by the pair of
    timers (5000 ms to start the fade-out, 300 ms more to detach the node). The timers
    are modelled as events the host fires. */
module Toasts {

  /** The styling a toast has: as created, or after the 5000 ms timer set its
      fade-out animation. */
  datatype Phase = Shown | FadingOut

  /** One toast node: the model's `id` stands for the identity of the DOM element. */
  datatype Toast = Toast(id: nat, message: string, kind: string, phase: Phase)

  predicate KnownKind(kind: string) {
    kind == "success" || kind == "error" || kind == "warning" || kind == "info"
  }

  /** What `${table[key]}` puts into the markup. `NativeFunction(key)` is the source
      text of the built-in function the key finds on the prototype chain (for
      `constructor` it is `Object`, rendered `function Object() { [native code] }`),
      whose exact spacing each engine chooses, so the model keeps only the key looked up. */
  datatype Interpolated = Text(text: string) | NativeFunction(key: string)

  /** The methods every object literal inherits from `Object.prototype`. */
  const ObjectPrototypeMethods: set<string> := {
    "constructor", "hasOwnProperty", "isPrototypeOf", "propertyIsEnumerable",
    "toLocaleString", "toString", "valueOf",
    "__defineGetter__", "__defineSetter__", "__lookupGetter__", "__lookupSetter__"
  }

  /** Keys an object literal answers without owning them. */
  predicate Inherited(key: string) {
    key in ObjectPrototypeMethods || key == "__proto__"
  }

  /** `table[key]` on an object literal, interpolated: the own value first, then the
      prototype chain (`__proto__` yields `Object.prototype`, which renders as
      `[object Object]`), and `undefined` when neither has the key. */
  function Lookup(table: map<string, string>, key: string): Interpolated {
    if key in table then Text(table[key])
    else if key == "__proto__" then Text("[object Object]")
    else if key in ObjectPrototypeMethods then NativeFunction(key)
    else Text("undefined")
  }

  /** The `icons` object of `showNotification`. */
  const Icons: map<string, string> := map[
    "success" := "fa-check-circle", "error" := "fa-exclamation-circle",
    "warning" := "fa-exclamation-triangle", "info" := "fa-info-circle"]

  /** The `colors` object of `showNotification`. */
  const Colours: map<string, string> := map[
    "success" := "#10b981", "error" := "#ef4444",
    "warning" := "#f59e0b", "info" := "#0ea5e9"]

  /** `icons[type]` as interpolated into the markup: a Font Awesome class for the four
      severities, a built-in's source text for an inherited method name, and the text
      `undefined` for every other type. */
  function Icon(kind: string): (icon: Interpolated)
    ensures KnownKind(kind) ==> icon.Text? && |icon.text| > 3 && icon.text[..3] == "fa-"
    ensures icon == Text("undefined") <==> !KnownKind(kind) && !Inherited(kind)
    ensures icon.NativeFunction? <==> kind in ObjectPrototypeMethods
  {
    Lookup(Icons, kind)
  }

  /** `colors[type]` as interpolated into the markup: a `#rrggbb` colour for the four
      severities, and the same fall-through as `Icon` for every other type. */
  function Colour(kind: string): (colour: Interpolated)
    ensures KnownKind(kind) ==> colour.Text? && |colour.text| == 7 && colour.text[0] == '#'
    ensures KnownKind(kind) ==> forall i :: 1 <= i < 7 ==> colour.text[i] in "0123456789abcdef"
    ensures colour == Text("undefined") <==> !KnownKind(kind) && !Inherited(kind)
    ensures colour.NativeFunction? <==> kind in ObjectPrototypeMethods
  {
    Lookup(Colours, kind)
  }

  /** The four severities have four different icons and four different colours. */
  lemma StylesDistinct(a: string, b: string)
    requires KnownKind(a) && KnownKind(b) && a != b
    ensures Icon(a) != Icon(b) && Colour(a) != Colour(b)
  {
  }

  /** Ids strictly increase along the container: the order of creation. */
  ghost predicate IdsIncreasing(ts: seq<Toast>) {
    forall i, j :: 0 <= i < j < |ts| ==> ts[i].id < ts[j].id
  }

  /** The node list after `remove()` on the node with this id; a node no longer in the
      document is left alone. */
  function Without(ts: seq<Toast>, id: nat): (r: seq<Toast>)
    ensures forall t :: t in r <==> t in ts && t.id != id
    ensures |r| <= |ts|
  {
    if ts == [] then []
    else if ts[0].id == id then Without(ts[1..], id)
    else [ts[0]] + Without(ts[1..], id)
  }

  /** The node list after the 5000 ms callback set the fade-out animation on the node
      with this id. A detached node is not in the list, so nothing changes then. */
  function Fade(ts: seq<Toast>, id: nat): (r: seq<Toast>)
    ensures |r| == |ts|
    ensures forall i :: 0 <= i < |ts| ==>
              r[i].id == ts[i].id && r[i].message == ts[i].message && r[i].kind == ts[i].kind
    ensures forall i :: 0 <= i < |ts| && ts[i].id != id ==> r[i] == ts[i]
    ensures forall i :: 0 <= i < |ts| && ts[i].id == id ==> r[i].phase == FadingOut
  {
    seq(|ts|, i requires 0 <= i < |ts| => if ts[i].id == id then ts[i].(phase := FadingOut) else ts[i])
  }

  /** The 5000 ms callback of a toast already closed changes nothing. */
  lemma FadeAbsent(ts: seq<Toast>, id: nat)
    requires forall i :: 0 <= i < |ts| ==> ts[i].id != id
    ensures Fade(ts, id) == ts
  {
  }

  /** Removal commutes with splitting the list: what stays keeps its relative order,
      and toasts before a point stay before it. */
  lemma {:induction false} WithoutAppend(a: seq<Toast>, b: seq<Toast>, id: nat)
    ensures Without(a + b, id) == Without(a, id) + Without(b, id)
  {
    if a != [] {
      assert (a + b)[1..] == a[1..] + b;
      WithoutAppend(a[1..], b, id);
    } else {
      assert a + b == b;
    }
  }

  /** Removing twice is removing once: the second removal is a no-op. */
  lemma {:induction false} WithoutIdempotent(ts: seq<Toast>, id: nat)
    ensures Without(Without(ts, id), id) == Without(ts, id)
  {
    if ts != [] {
      WithoutIdempotent(ts[1..], id);
      if ts[0].id != id {
        assert ([ts[0]] + Without(ts[1..], id))[1..] == Without(ts[1..], id);
      }
    }
  }

  /** Removing an id that is not present changes nothing. */
  lemma {:induction false} WithoutAbsent(ts: seq<Toast>, id: nat)
    requires forall i :: 0 <= i < |ts| ==> ts[i].id != id
    ensures Without(ts, id) == ts
  {
    if ts != [] {
      WithoutAbsent(ts[1..], id);
      assert [ts[0]] + ts[1..] == ts;
    }
  }

  /** With unique ids, a removal deletes exactly one toast and keeps the order. */
  lemma {:induction false} WithoutOne(ts: seq<Toast>, k: nat)
    requires IdsIncreasing(ts) && k < |ts|
    ensures Without(ts, ts[k].id) == ts[..k] + ts[k + 1..]
  {
    var id := ts[k].id;
    var before, after := ts[..k], ts[k + 1..];
    assert Without(before + [ts[k]], id) == before by {
      WithoutAppend(before, [ts[k]], id);
      WithoutAbsent(before, id);
      assert [ts[k]][1..] == [];
    }
    assert Without(after, id) == after by {
      WithoutAbsent(after, id);
    }
    assert ts == before + [ts[k]] + after;
    WithoutAppend(before + [ts[k]], after, id);
  }

  /** Deleting one toast keeps ids increasing. */
  lemma DropIncreasing(ts: seq<Toast>, k: nat)
    requires IdsIncreasing(ts) && k < |ts|
    ensures IdsIncreasing(ts[..k] + ts[k + 1..])
  {
    var r := ts[..k] + ts[k + 1..];
    forall i, j | 0 <= i < j < |r| ensures r[i].id < r[j].id {
      var i', j' := if i < k then i else i + 1, if j < k then j else j + 1;
      assert r[i] == ts[i'] && r[j] == ts[j'];
    }
  }

  /** A toast that fades and is then removed is gone, and nothing else changed. */
  lemma {:induction false} FadeThenRemove(ts: seq<Toast>, id: nat)
    ensures Without(Fade(ts, id), id) == Without(ts, id)
  {
    if ts != [] {
      FadeThenRemove(ts[1..], id);
      assert Fade(ts, id)[1..] == Fade(ts[1..], id);
    }
  }

  class NotificationCenter {
    /** How many `.notification-container` elements the document holds. */
    var containers: nat
    /** The toast nodes inside the container, in document order. */
    var toasts: seq<Toast>
    /** The id the next toast gets. */
    var nextId: nat

    ghost predicate Valid()
      reads this
    {
      && containers <= 1
      && (toasts != [] ==> containers == 1)
      && IdsIncreasing(toasts)
      && forall i :: 0 <= i < |toasts| ==> toasts[i].id < nextId
    }

    /** A page before its first notification: no container yet. */
    constructor ()
      ensures Valid() && containers == 0 && toasts == []
    {
      containers, toasts, nextId := 0, [], 0;
    }

    /** `showNotification(message, type)`: creates the container when the document has
        none, then appends one new shown toast after all earlier ones. */
    method Notify(message: string, kind: string := "info") returns (id: nat)
      requires Valid()
      modifies this
      ensures Valid()
      ensures containers == 1
      ensures toasts == old(toasts) + [Toast(id, message, kind, Shown)]
      ensures id == old(nextId) && nextId == old(nextId) + 1
      ensures forall i :: 0 <= i < |old(toasts)| ==> old(toasts)[i].id < id
    {
      if containers == 0 {
        containers := 1;
      }
      id := nextId;
      toasts := toasts + [Toast(id, message, kind, Shown)];
      nextId := nextId + 1;
    }

    /** The 5000 ms callback: the toast starts its fade-out; a toast already closed is
        detached, and setting its style changes nothing in the document. */
    method StartFadeOut(id: nat)
      requires Valid()
      modifies this
      ensures Valid()
      ensures toasts == Fade(old(toasts), id)
      ensures (forall i :: 0 <= i < |old(toasts)| ==> old(toasts)[i].id != id) ==> toasts == old(toasts)
      ensures containers == old(containers) && nextId == old(nextId)
    {
      if forall i :: 0 <= i < |toasts| ==> toasts[i].id != id {
        FadeAbsent(toasts, id);
      }
      toasts := Fade(toasts, id);
    }

    /** `notification.remove()`, called by the close button and by the 300 ms callback:
        detaches that toast only; on a toast already detached it does nothing. The
        container stays, even when it becomes empty. */
    method Remove(id: nat)
      requires Valid()
      modifies this
      ensures Valid()
      ensures toasts == Without(old(toasts), id)
      ensures forall i :: 0 <= i < |old(toasts)| && old(toasts)[i].id == id ==>
                toasts == old(toasts)[..i] + old(toasts)[i + 1..]
      ensures containers == old(containers) && nextId == old(nextId)
    {
      ghost var before := toasts;
      forall i | 0 <= i < |before| && before[i].id == id
        ensures Without(before, id) == before[..i] + before[i + 1..]
      {
        WithoutOne(before, i);
      }
      if k :| 0 <= k < |before| && before[k].id == id {
        DropIncreasing(before, k);
      } else {
        WithoutAbsent(before, id);
      }
      toasts := Without(toasts, id);
    }
  }

  /** Two notifications in a row: one container holding both toasts, the first before
      the second; closing the first leaves the second as it was; the timers firing for
      the closed one later change nothing. */
  method TwoToasts() returns (center: NotificationCenter, a: nat, b: nat)
    ensures a < b
    ensures center.Valid() && center.containers == 1
    ensures center.toasts == [Toast(b, "B", "info", Shown)]
  {
    center := new NotificationCenter();
    a := center.Notify("A", "success");
    b := center.Notify("B");
    assert center.toasts == [Toast(a, "A", "success", Shown), Toast(b, "B", "info", Shown)];
    center.Remove(a);
    var closed := center.toasts;
    assert closed == [Toast(b, "B", "info", Shown)];
    center.StartFadeOut(a);
    center.Remove(a);
    assert center.toasts == closed;
  }

  /** A toast shown after another one was closed gets a new id, so the closed toast's
      late timers leave it alone. */
  method LateTimersSpareNewToast() returns (center: NotificationCenter, a: nat, c: nat)
    ensures c != a
    ensures center.Valid() && center.toasts == [Toast(c, "C", "info", Shown)]
  {
    center := new NotificationCenter();
    a := center.Notify("A");
    center.Remove(a);
    c := center.Notify("C");
    assert center.toasts == [Toast(c, "C", "info", Shown)];
    center.StartFadeOut(a);
    center.Remove(a);
  }
}
