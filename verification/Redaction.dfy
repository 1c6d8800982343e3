/**
  The log handler that hides credentials: a walk over attribute trees that replaces
  every value under a key that looks sensitive, and every value marked secret.

  Attribute trees are finite. `lower` is the library's mapping of a character to
  lower case.
  */
module Redaction {

  /** An attribute value; a valuer stands for the value it resolves to. */
  datatype Value =
    | Leaf(text: string)
    | Group(attrs: seq<Attr>)
    | Secret(hidden: string)
    | Valuer(value: Value)

  datatype Attr = Attr(key: string, value: Value)

  const REDACTED := "[REDACTED]"

  const FRAGMENTS: seq<string> := [
    "password", "passwd", "passphrase", "secret", "token", "credential", "apikey", "api_key",
    "private_key", "privatekey", "signing_key", "session_key", "authorization", "auth_header"
  ]

  // ------------------------------------------------------------------
  // Sensitive keys
  // ------------------------------------------------------------------

  function ToLower(lower: char -> char, s: string): (r: string)
    ensures |r| == |s| && forall i :: 0 <= i < |s| ==> r[i] == lower(s[i])
  {
    seq(|s|, i requires 0 <= i < |s| => lower(s[i]))
  }

  predicate OccursAt(s: string, fragment: string, i: int) {
    0 <= i <= |s| - |fragment| && s[i..i + |fragment|] == fragment
  }

  predicate Contains(s: string, fragment: string) {
    exists i :: 0 <= i <= |s| && OccursAt(s, fragment, i)
  }

  predicate Sensitive(lower: char -> char, key: string) {
    exists f :: f in FRAGMENTS && Contains(ToLower(lower, key), f)
  }

  lemma ContainsExactly(s: string, fragment: string)
    ensures Contains(s, fragment) <==> exists before, after :: s == before + fragment + after
  {
    if Contains(s, fragment) {
      var i :| 0 <= i <= |s| && OccursAt(s, fragment, i);
      assert s == s[..i] + fragment + s[i + |fragment|..];
    }
    if before, after :| s == before + fragment + after {
      assert s[|before|..|before| + |fragment|] == fragment;
      assert OccursAt(s, fragment, |before|);
    }
  }

  /** The key is `before` + `word` + `after`, and the word is a listed one but for case. */
  ghost predicate Spells(lower: char -> char, key: string, before: string, word: string, after: string) {
    && key == before + word + after
    && ToLower(lower, word) in [
         "password", "passwd", "passphrase", "secret", "token", "credential", "apikey", "api_key",
         "private_key", "privatekey", "signing_key", "session_key", "authorization", "auth_header"]
  }

  /** A key is sensitive exactly when one of fourteen words stands in it, in any case. */
  lemma SensitiveExactly(lower: char -> char, key: string)
    ensures Sensitive(lower, key) <==> exists before, word, after :: Spells(lower, key, before, word, after)
  {
    var lowered := ToLower(lower, key);
    if Sensitive(lower, key) {
      var f :| f in FRAGMENTS && Contains(lowered, f);
      var i :| 0 <= i <= |lowered| && OccursAt(lowered, f, i);
      var before, word, after := key[..i], key[i..i + |f|], key[i + |f|..];
      assert key == before + word + after;
      assert ToLower(lower, word) == lowered[i..i + |f|];
      assert Spells(lower, key, before, word, after);
    }
    if before, word, after :| Spells(lower, key, before, word, after) {
      var f := ToLower(lower, word);
      assert lowered == ToLower(lower, before) + f + ToLower(lower, after);
      ContainsExactly(lowered, f);
      assert f in FRAGMENTS;
    }
  }

  method IsSensitiveKey(lower: char -> char, key: string) returns (sensitive: bool)
    ensures sensitive == Sensitive(lower, key)
  {
    if key == "" {
      NoFragmentIsEmpty();
      return false;
    }
    var lowered := ToLower(lower, key);
    for i := 0 to |FRAGMENTS|
      invariant forall j :: 0 <= j < i ==> !Contains(lowered, FRAGMENTS[j])
    {
      if Contains(lowered, FRAGMENTS[i]) {
        return true;
      }
    }
    sensitive := false;
  }

  lemma NoFragmentIsEmpty()
    ensures forall f :: f in FRAGMENTS ==> |f| > 0
  {
  }

  // ------------------------------------------------------------------
  // Redaction
  // ------------------------------------------------------------------

  function Resolve(v: Value): (r: Value)
    ensures !r.Secret? && !r.Valuer?
  {
    match v
    case Leaf(_) => v
    case Group(_) => v
    case Secret(_) => Leaf(REDACTED)
    case Valuer(w) => Resolve(w)
  }

  predicate Empty(a: Attr) {
    a.value == Group([])
  }

  /** The logging library leaves out attributes whose value is an empty group, both
      when it builds a group and when it adds attributes to a record. */
  function DropEmpty(attrs: seq<Attr>): seq<Attr> {
    if attrs == [] then []
    else if Empty(attrs[0]) then DropEmpty(attrs[1..])
    else [attrs[0]] + DropEmpty(attrs[1..])
  }

  /** Exactly the empty groups are left out. */
  lemma {:induction false} DropEmptyExactly(attrs: seq<Attr>)
    ensures forall a :: a in DropEmpty(attrs) <==> a in attrs && a.value != Group([])
  {
    if attrs != [] {
      DropEmptyExactly(attrs[1..]);
      assert attrs == [attrs[0]] + attrs[1..];
    }
  }

  function RedactAttr(lower: char -> char, a: Attr): Attr
    decreases a, 1
  {
    Attr(a.key, if Sensitive(lower, a.key) then Leaf(REDACTED) else RedactValue(lower, a.value))
  }

  function RedactValue(lower: char -> char, v: Value): Value
    decreases v, 1
  {
    match v
    case Leaf(_) => v
    case Group(attrs) => Group(DropEmpty(RedactAll(lower, attrs)))
    case Secret(_) => Leaf(REDACTED)
    case Valuer(w) => RedactValue(lower, w)
  }

  function RedactAll(lower: char -> char, attrs: seq<Attr>): (r: seq<Attr>)
    ensures |r| == |attrs|
    decreases attrs, 0
  {
    if attrs == [] then [] else [RedactAttr(lower, attrs[0])] + RedactAll(lower, attrs[1..])
  }

  /** Redaction resolves a value first and then walks it if it is a group. */
  lemma {:induction false} RedactionResolvesFirst(lower: char -> char, v: Value)
    ensures RedactValue(lower, v)
            == match Resolve(v)
               case Group(attrs) => Group(DropEmpty(RedactAll(lower, attrs)))
               case _ => Resolve(v)
  {
    if v.Valuer? {
      RedactionResolvesFirst(lower, v.value);
    }
  }

  // ------------------------------------------------------------------
  // Nothing hidden matters
  // ------------------------------------------------------------------

  /** Two attributes that differ only below a sensitive key or inside a secret. */
  ghost predicate SameBut(lower: char -> char, a: Attr, b: Attr)
    decreases a, 1
  {
    a.key == b.key && (Sensitive(lower, a.key) || SameValueBut(lower, a.value, b.value))
  }

  ghost predicate SameValueBut(lower: char -> char, v: Value, w: Value)
    decreases v, 1
  {
    match v
    case Leaf(_) => v == w
    case Group(attrs) => w.Group? && SameAllBut(lower, attrs, w.attrs)
    case Secret(_) => w.Secret?
    case Valuer(inner) => w.Valuer? && SameValueBut(lower, inner, w.value)
  }

  ghost predicate SameAllBut(lower: char -> char, a: seq<Attr>, b: seq<Attr>)
    decreases a, 0
  {
    && |a| == |b|
    && (a != [] ==> SameBut(lower, a[0], b[0]) && SameAllBut(lower, a[1..], b[1..]))
  }

  lemma {:induction false} HiddenDoesNotMatter(lower: char -> char, a: Attr, b: Attr)
    requires SameBut(lower, a, b)
    ensures RedactAttr(lower, a) == RedactAttr(lower, b)
    decreases a, 1
  {
    if !Sensitive(lower, a.key) {
      HiddenValueDoesNotMatter(lower, a.value, b.value);
    }
  }

  lemma {:induction false} HiddenValueDoesNotMatter(lower: char -> char, v: Value, w: Value)
    requires SameValueBut(lower, v, w)
    ensures RedactValue(lower, v) == RedactValue(lower, w)
    decreases v, 1
  {
    match v
    case Leaf(_) =>
    case Group(attrs) => HiddenNowhereMatters(lower, attrs, w.attrs);
    case Secret(_) =>
    case Valuer(inner) => HiddenValueDoesNotMatter(lower, inner, w.value);
  }

  lemma {:induction false} HiddenNowhereMatters(lower: char -> char, a: seq<Attr>, b: seq<Attr>)
    requires SameAllBut(lower, a, b)
    ensures RedactAll(lower, a) == RedactAll(lower, b)
    decreases a, 0
  {
    if a != [] {
      HiddenDoesNotMatter(lower, a[0], b[0]);
      HiddenNowhereMatters(lower, a[1..], b[1..]);
    }
  }

  // ------------------------------------------------------------------
  // Everything else is kept
  // ------------------------------------------------------------------

  /** A leaf of an attribute tree: the keys on the way to it, and its text. */
  datatype Line = Line(path: seq<string>, text: string)

  /** What a handler that knows nothing of redaction writes for a value. */
  function Write(path: seq<string>, v: Value): seq<Line>
    decreases v, 1
  {
    match v
    case Leaf(text) => [Line(path, text)]
    case Group(attrs) => WriteAll(path, attrs)
    case Secret(hidden) => [Line(path, hidden)]
    case Valuer(w) => Write(path, w)
  }

  function WriteAll(path: seq<string>, attrs: seq<Attr>): seq<Line>
    decreases attrs, 0
  {
    if attrs == [] then []
    else Write(path + [attrs[0].key], attrs[0].value) + WriteAll(path, attrs[1..])
  }

  /** What the log should show: every leaf with its path and text in order, with one
      placeholder for whatever is under a sensitive key and one for each secret. */
  function Expected(lower: char -> char, path: seq<string>, v: Value): seq<Line>
    decreases v, 1
  {
    match v
    case Leaf(text) => [Line(path, text)]
    case Group(attrs) => ExpectedAll(lower, path, attrs)
    case Secret(_) => [Line(path, REDACTED)]
    case Valuer(w) => Expected(lower, path, w)
  }

  function ExpectedAll(lower: char -> char, path: seq<string>, attrs: seq<Attr>): seq<Line>
    decreases attrs, 0
  {
    if attrs == [] then []
    else
      var here := path + [attrs[0].key];
      (if Sensitive(lower, attrs[0].key) then [Line(here, REDACTED)] else Expected(lower, here, attrs[0].value))
      + ExpectedAll(lower, path, attrs[1..])
  }

  lemma {:induction false} EmptyGroupsWriteNothing(path: seq<string>, attrs: seq<Attr>)
    ensures WriteAll(path, DropEmpty(attrs)) == WriteAll(path, attrs)
  {
    if attrs != [] {
      EmptyGroupsWriteNothing(path, attrs[1..]);
      if Empty(attrs[0]) {
        assert Write(path + [attrs[0].key], attrs[0].value) == [];
      } else {
        var kept := [attrs[0]] + DropEmpty(attrs[1..]);
        assert kept[0] == attrs[0] && kept[1..] == DropEmpty(attrs[1..]);
      }
    }
  }

  /** Writing the redacted value shows exactly what should be shown. */
  lemma {:induction false} ValueWritesAsExpected(lower: char -> char, path: seq<string>, v: Value)
    ensures Write(path, RedactValue(lower, v)) == Expected(lower, path, v)
    decreases v, 1
  {
    match v
    case Leaf(_) =>
    case Group(attrs) =>
      AttrsWriteAsExpected(lower, path, attrs);
      EmptyGroupsWriteNothing(path, RedactAll(lower, attrs));
    case Secret(_) =>
    case Valuer(w) => ValueWritesAsExpected(lower, path, w);
  }

  lemma {:induction false} AttrsWriteAsExpected(lower: char -> char, path: seq<string>, attrs: seq<Attr>)
    ensures WriteAll(path, RedactAll(lower, attrs)) == ExpectedAll(lower, path, attrs)
    decreases attrs, 0
  {
    if attrs != [] {
      ValueWritesAsExpected(lower, path + [attrs[0].key], attrs[0].value);
      AttrsWriteAsExpected(lower, path, attrs[1..]);
      var redacted := RedactAll(lower, attrs);
      assert redacted[0] == RedactAttr(lower, attrs[0]) && redacted[1..] == RedactAll(lower, attrs[1..]);
    }
  }

  /** Nothing to hide: no sensitive key and no secret anywhere. */
  ghost predicate Harmless(lower: char -> char, v: Value)
    decreases v, 1
  {
    match v
    case Leaf(_) => true
    case Group(attrs) => AllHarmless(lower, attrs)
    case Secret(_) => false
    case Valuer(w) => Harmless(lower, w)
  }

  ghost predicate AllHarmless(lower: char -> char, attrs: seq<Attr>)
    decreases attrs, 0
  {
    attrs != [] ==>
      !Sensitive(lower, attrs[0].key) && Harmless(lower, attrs[0].value) && AllHarmless(lower, attrs[1..])
  }

  lemma {:induction false} HarmlessIsExpectedAsIs(lower: char -> char, path: seq<string>, v: Value)
    requires Harmless(lower, v)
    ensures Expected(lower, path, v) == Write(path, v)
    decreases v, 1
  {
    match v
    case Leaf(_) =>
    case Group(attrs) => AllHarmlessIsExpectedAsIs(lower, path, attrs);
    case Valuer(w) => HarmlessIsExpectedAsIs(lower, path, w);
  }

  lemma {:induction false} AllHarmlessIsExpectedAsIs(lower: char -> char, path: seq<string>, attrs: seq<Attr>)
    requires AllHarmless(lower, attrs)
    ensures ExpectedAll(lower, path, attrs) == WriteAll(path, attrs)
    decreases attrs, 0
  {
    if attrs != [] {
      HarmlessIsExpectedAsIs(lower, path + [attrs[0].key], attrs[0].value);
      AllHarmlessIsExpectedAsIs(lower, path, attrs[1..]);
    }
  }

  // ------------------------------------------------------------------
  // Redacting again changes nothing
  // ------------------------------------------------------------------

  lemma {:induction false} DropEmptyTwice(attrs: seq<Attr>)
    ensures DropEmpty(DropEmpty(attrs)) == DropEmpty(attrs)
  {
    if attrs != [] {
      DropEmptyTwice(attrs[1..]);
      if !Empty(attrs[0]) {
        var kept := [attrs[0]] + DropEmpty(attrs[1..]);
        assert kept[0] == attrs[0] && kept[1..] == DropEmpty(attrs[1..]);
      }
    }
  }

  lemma {:induction false} RedactTwice(lower: char -> char, a: Attr)
    ensures RedactAttr(lower, RedactAttr(lower, a)) == RedactAttr(lower, a)
    decreases a, 1
  {
    if !Sensitive(lower, a.key) {
      RedactValueTwice(lower, a.value);
    }
  }

  lemma {:induction false} RedactValueTwice(lower: char -> char, v: Value)
    ensures RedactValue(lower, RedactValue(lower, v)) == RedactValue(lower, v)
    decreases v, 1
  {
    match v
    case Leaf(_) =>
    case Group(attrs) =>
      RedactKeptTwice(lower, attrs);
      DropEmptyTwice(RedactAll(lower, attrs));
    case Secret(_) =>
    case Valuer(w) => RedactValueTwice(lower, w);
  }

  lemma {:induction false} RedactKeptTwice(lower: char -> char, attrs: seq<Attr>)
    ensures var kept := DropEmpty(RedactAll(lower, attrs)); RedactAll(lower, kept) == kept
    decreases attrs, 0
  {
    if attrs != [] {
      RedactTwice(lower, attrs[0]);
      RedactKeptTwice(lower, attrs[1..]);
      var first, rest := RedactAttr(lower, attrs[0]), RedactAll(lower, attrs[1..]);
      assert ([first] + rest)[1..] == rest;
      if !Empty(first) {
        var kept := [first] + DropEmpty(rest);
        assert kept[0] == first && kept[1..] == DropEmpty(rest);
      }
    }
  }

  // ------------------------------------------------------------------
  // The handler
  // ------------------------------------------------------------------

  /** A call on a handler. Binding attributes and opening a group give a new handler,
      so what a record goes through is the sequence of calls on its way. */
  datatype Call =
    | WithAttrs(attrs: seq<Attr>)
    | WithGroup(name: string)
    | Handle(message: string, attrs: seq<Attr>)

  /** What the inner handler receives for a call; group names are passed through. */
  function Forward(lower: char -> char, c: Call): Call {
    match c
    case WithAttrs(attrs) => WithAttrs(RedactAll(lower, attrs))
    case WithGroup(_) => c
    case Handle(message, attrs) => Handle(message, DropEmpty(RedactAll(lower, attrs)))
  }

  method ForwardWithAttrs(lower: char -> char, attrs: seq<Attr>) returns (received: Call)
    ensures received == Forward(lower, WithAttrs(attrs))
  {
    var cleaned := new Attr[|attrs|](_ => Attr("", Leaf("")));
    for i := 0 to |attrs|
      invariant cleaned[..i] == RedactAll(lower, attrs[..i])
    {
      assert attrs[..i + 1][..i] == attrs[..i];
      RedactAllSnoc(lower, attrs[..i], attrs[i]);
      assert attrs[..i + 1] == attrs[..i] + [attrs[i]];
      cleaned[i] := RedactAttr(lower, attrs[i]);
      assert cleaned[..i + 1] == cleaned[..i] + [cleaned[i]];
    }
    assert attrs[..|attrs|] == attrs && cleaned[..|attrs|] == cleaned[..];
    received := WithAttrs(cleaned[..]);
  }

  method ForwardHandle(lower: char -> char, message: string, attrs: seq<Attr>) returns (received: Call)
    ensures received == Forward(lower, Handle(message, attrs))
  {
    var clean: seq<Attr> := [];
    for i := 0 to |attrs|
      invariant clean == DropEmpty(RedactAll(lower, attrs[..i]))
    {
      var a := RedactAttr(lower, attrs[i]);
      RedactAllSnoc(lower, attrs[..i], attrs[i]);
      DropEmptySnoc(RedactAll(lower, attrs[..i]), a);
      assert attrs[..i + 1] == attrs[..i] + [attrs[i]];
      if !Empty(a) {
        clean := clean + [a];
      }
    }
    assert attrs[..|attrs|] == attrs;
    received := Handle(message, clean);
  }

  lemma {:induction false} RedactAllSnoc(lower: char -> char, attrs: seq<Attr>, last: Attr)
    ensures RedactAll(lower, attrs + [last]) == RedactAll(lower, attrs) + [RedactAttr(lower, last)]
  {
    if attrs == [] {
      assert [] + [last] == [last];
    } else {
      assert (attrs + [last])[1..] == attrs[1..] + [last];
      RedactAllSnoc(lower, attrs[1..], last);
    }
  }

  lemma {:induction false} DropEmptySnoc(attrs: seq<Attr>, last: Attr)
    ensures DropEmpty(attrs + [last]) == DropEmpty(attrs) + (if Empty(last) then [] else [last])
  {
    if attrs == [] {
      assert [] + [last] == [last];
    } else {
      assert (attrs + [last])[1..] == attrs[1..] + [last];
      DropEmptySnoc(attrs[1..], last);
    }
  }

  function ForwardAll(lower: char -> char, calls: seq<Call>): (r: seq<Call>)
    ensures |r| == |calls|
  {
    seq(|calls|, i requires 0 <= i < |calls| => Forward(lower, calls[i]))
  }

  ghost predicate SameCallBut(lower: char -> char, c: Call, d: Call) {
    match c
    case WithAttrs(attrs) => d.WithAttrs? && SameAllBut(lower, attrs, d.attrs)
    case WithGroup(_) => c == d
    case Handle(message, attrs) => d.Handle? && d.message == message && SameAllBut(lower, attrs, d.attrs)
  }

  /** Non-interference: over any sequence of calls, what is under a sensitive key or
      inside a secret has no influence on what the inner handler receives. */
  lemma NonInterference(lower: char -> char, a: seq<Call>, b: seq<Call>)
    requires |a| == |b|
    requires forall i :: 0 <= i < |a| ==> SameCallBut(lower, a[i], b[i])
    ensures ForwardAll(lower, a) == ForwardAll(lower, b)
  {
    forall i | 0 <= i < |a|
      ensures Forward(lower, a[i]) == Forward(lower, b[i])
    {
      if !a[i].WithGroup? {
        HiddenNowhereMatters(lower, a[i].attrs, b[i].attrs);
      }
    }
  }

  /** And everything else has: the record the inner handler writes shows exactly the
      expected lines, and those of harmless attributes unchanged. */
  lemma RecordShowsTheRest(lower: char -> char, message: string, attrs: seq<Attr>)
    ensures var received := Forward(lower, Handle(message, attrs));
            && received.message == message
            && WriteAll([], received.attrs) == ExpectedAll(lower, [], attrs)
            && (AllHarmless(lower, attrs) ==> WriteAll([], received.attrs) == WriteAll([], attrs))
  {
    AttrsWriteAsExpected(lower, [], attrs);
    EmptyGroupsWriteNothing([], RedactAll(lower, attrs));
    if AllHarmless(lower, attrs) {
      AllHarmlessIsExpectedAsIs(lower, [], attrs);
    }
  }

  /** The same for attributes bound to a handler: none is dropped, and each shows what is
      expected of it. */
  lemma BoundAttributesShowTheRest(lower: char -> char, attrs: seq<Attr>)
    ensures var received := Forward(lower, WithAttrs(attrs));
            && received.WithAttrs? && |received.attrs| == |attrs|
            && (forall i :: 0 <= i < |attrs| ==> received.attrs[i].key == attrs[i].key)
            && WriteAll([], received.attrs) == ExpectedAll(lower, [], attrs)
            && (AllHarmless(lower, attrs) ==> WriteAll([], received.attrs) == WriteAll([], attrs))
  {
    AttrsWriteAsExpected(lower, [], attrs);
    forall i | 0 <= i < |attrs|
      ensures RedactAll(lower, attrs)[i].key == attrs[i].key
    {
      KeyIsKept(lower, attrs, i);
    }
    if AllHarmless(lower, attrs) {
      AllHarmlessIsExpectedAsIs(lower, [], attrs);
    }
  }

  lemma {:induction false} KeyIsKept(lower: char -> char, attrs: seq<Attr>, i: nat)
    requires i < |attrs|
    ensures RedactAll(lower, attrs)[i].key == attrs[i].key
  {
    if i > 0 {
      KeyIsKept(lower, attrs[1..], i - 1);
      assert RedactAll(lower, attrs)[i] == RedactAll(lower, attrs[1..])[i - 1];
    }
  }

  /** The expected lines of one attribute, in so many words. */
  lemma LinesSpelledOut(lower: char -> char, path: seq<string>, key: string, text: string, attrs: seq<Attr>)
    ensures ExpectedAll(lower, path, [Attr(key, Leaf(text))])
            == [Line(path + [key], if Sensitive(lower, key) then "[REDACTED]" else text)]
    ensures ExpectedAll(lower, path, [Attr(key, Secret(text))]) == [Line(path + [key], "[REDACTED]")]
    ensures Sensitive(lower, key) ==>
              ExpectedAll(lower, path, [Attr(key, Group(attrs))]) == [Line(path + [key], "[REDACTED]")]
    ensures !Sensitive(lower, key) ==>
              ExpectedAll(lower, path, [Attr(key, Group(attrs))]) == ExpectedAll(lower, path + [key], attrs)
    ensures WriteAll(path, [Attr(key, Leaf(text))]) == [Line(path + [key], text)]
    ensures WriteAll(path, [Attr(key, Group(attrs))]) == WriteAll(path + [key], attrs)
  {
    assert [Attr(key, Leaf(text))][1..] == [] && [Attr(key, Secret(text))][1..] == []
           && [Attr(key, Group(attrs))][1..] == [];
  }

  /** Passing the calls through a second redacting handler changes nothing. */
  lemma ForwardTwice(lower: char -> char, c: Call)
    ensures Forward(lower, Forward(lower, c)) == Forward(lower, c)
  {
    match c
    case WithGroup(_) =>
    case WithAttrs(attrs) => RedactAllTwice(lower, attrs);
    case Handle(_, attrs) =>
      RedactKeptTwice(lower, attrs);
      DropEmptyTwice(RedactAll(lower, attrs));
  }

  lemma {:induction false} RedactAllTwice(lower: char -> char, attrs: seq<Attr>)
    ensures RedactAll(lower, RedactAll(lower, attrs)) == RedactAll(lower, attrs)
  {
    if attrs != [] {
      RedactTwice(lower, attrs[0]);
      RedactAllTwice(lower, attrs[1..]);
      var all := RedactAll(lower, attrs);
      assert all[0] == RedactAttr(lower, attrs[0]) && all[1..] == RedactAll(lower, attrs[1..]);
    }
  }

  /** Only attribute keys are examined: a value logged inside an opened group is shown
      whatever the group's name is. */
  lemma OpenGroupNamesAreNotExamined(lower: char -> char, name: string, key: string, text: string)
    requires !Sensitive(lower, key)
    ensures ForwardAll(lower, [WithGroup(name), Handle("", [Attr(key, Leaf(text))])])
            == [WithGroup(name), Handle("", [Attr(key, Leaf(text))])]
  {
    var attrs := [Attr(key, Leaf(text))];
    assert attrs[1..] == [];
    assert RedactAttr(lower, attrs[0]) == attrs[0];
    assert RedactAll(lower, attrs[1..]) == [];
    assert DropEmpty(attrs) == attrs;
  }
}
