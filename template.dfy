/** The placeholder merge of the Mail Handler page (`fillTemplate` in MailHandler.jsx):
    `tmpl.replace(/{{(.*?)}}/g, (_, key) => map[key] || "")`. The scan goes left to right; a
    placeholder is `{{`, then the shortest run of characters other than line terminators that
    reaches a `}}`; it is replaced by the value of its key, or by nothing. */
module Template {
  import opened Base

  /** The substitution map `mapped`: the only three keys a placeholder can draw a value from. */
  datatype Merge = Merge(firstName: string, lastName: string, email: string)

  /** The characters the regular expression `.` does not match. */
  predicate IsLineTerminator(c: char) {
    c == '\n' || c == '\r' || c == '\U{2028}' || c == '\U{2029}'
  }

  /** `map[key] || ""`: the value under one of the three keys, the empty string for any other. */
  function Lookup(m: Merge, key: string): string {
    if key == "firstName" then m.firstName
    else if key == "lastName" then m.lastName
    else if key == "email" then m.email
    else ""
  }

  predicate OpensAt(s: string, i: nat) {
    i + 1 < |s| && s[i] == '{' && s[i + 1] == '{'
  }

  predicate ClosesAt(s: string, k: nat) {
    k + 1 < |s| && s[k] == '}' && s[k + 1] == '}'
  }

  /** Where the lazy `(.*?)}}` that starts at `from` ends: the first `}}` at or after `from`,
      provided no line terminator comes before it. */
  function FindClose(s: string, from: nat): (r: Option<nat>)
    requires from <= |s|
    ensures r.Some? ==> from <= r.value && ClosesAt(s, r.value)
    ensures r.Some? ==> forall j :: from <= j < r.value ==> !ClosesAt(s, j) && !IsLineTerminator(s[j])
    ensures r.None? ==> forall k :: from <= k && ClosesAt(s, k) ==>
      exists j :: from <= j < k && IsLineTerminator(s[j])
    decreases |s| - from
  {
    if from + 1 >= |s| then None
    else if s[from] == '}' && s[from + 1] == '}' then Some(from)
    else if IsLineTerminator(s[from]) then None
    else FindClose(s, from + 1)
  }

  /** `fillTemplate(tmpl, map)`. */
  function Fill(s: string, m: Merge): string
    decreases |s|
  {
    if s == [] then []
    else if OpensAt(s, 0) && FindClose(s, 2).Some? then
      var k := FindClose(s, 2).value;
      Lookup(m, s[2..k]) + Fill(s[k + 2..], m)
    else [s[0]] + Fill(s[1..], m)
  }

  /** A template in which no `{{` is followed by a `}}` comes back unchanged. */
  lemma {:induction false} FillWithoutPlaceholders(s: string, m: Merge)
    requires forall i, k :: 0 <= i && i + 2 <= k && OpensAt(s, i) ==> !ClosesAt(s, k)
    ensures Fill(s, m) == s
    decreases |s|
  {
    if s != [] {
      assert !(OpensAt(s, 0) && FindClose(s, 2).Some?);
      var t := s[1..];
      forall i, k | 0 <= i && i + 2 <= k && OpensAt(t, i) ensures !ClosesAt(t, k) {
        assert OpensAt(s, i + 1);
        assert ClosesAt(t, k) ==> ClosesAt(s, k + 1);
      }
      FillWithoutPlaceholders(t, m);
    }
  }

  /** Text without `{` before the rest of a template is copied as it is. */
  lemma {:induction false} FillPlainPrefix(p: string, s: string, m: Merge)
    requires '{' !in p
    ensures Fill(p + s, m) == p + Fill(s, m)
  {
    if p != [] {
      var t := p + s;
      assert t[0] == p[0] && p[0] != '{';
      assert !OpensAt(t, 0);
      assert t[1..] == p[1..] + s;
      FillPlainPrefix(p[1..], s, m);
      assert p == [p[0]] + p[1..];
    } else {
      assert p + s == s;
    }
  }

  /** The first `}}` is found when the characters before it are neither `}` nor line terminators. */
  lemma {:induction false} FindCloseAfterKey(s: string, from: nat, k: nat)
    requires from <= k && ClosesAt(s, k)
    requires forall j :: from <= j < k ==> s[j] != '}' && !IsLineTerminator(s[j])
    ensures FindClose(s, from) == Some(k)
    decreases k - from
  {
    if from < k {
      FindCloseAfterKey(s, from + 1, k);
    }
  }

  /** The placeholder `{{key}}`. */
  function Placeholder(key: string): string {
    "{{" + key + "}}"
  }

  /** A key the lazy match reads whole: no `}` and no line terminator in it. */
  predicate PlainKey(key: string) {
    forall j :: 0 <= j < |key| ==> key[j] != '}' && !IsLineTerminator(key[j])
  }

  /** A placeholder with a plain key is replaced by the value of that key, and the scan goes on
      right after it. */
  lemma FillPlaceholder(key: string, rest: string, m: Merge)
    requires PlainKey(key)
    ensures Fill(Placeholder(key) + rest, m) == Lookup(m, key) + Fill(rest, m)
  {
    var s := Placeholder(key) + rest;
    var k := 2 + |key|;
    assert ClosesAt(s, k);
    FindCloseAfterKey(s, 2, k);
    assert s[2..k] == key;
    assert s[k + 2..] == rest;
  }

  /** A key other than the three map keys is replaced by nothing. */
  lemma FillUnknownKey(key: string, rest: string, m: Merge)
    requires PlainKey(key)
    requires key != "firstName" && key != "lastName" && key != "email"
    ensures Fill(Placeholder(key) + rest, m) == Fill(rest, m)
  {
    FillPlaceholder(key, rest, m);
  }

  /** Text without `{` comes back unchanged. */
  lemma FillPlain(s: string, m: Merge)
    requires '{' !in s
    ensures Fill(s, m) == s
  {
    FillPlainPrefix(s, [], m);
    assert s + [] == s;
  }

  /** Plain text, then a placeholder: the text is kept and the placeholder replaced. */
  lemma FillTextThenPlaceholder(t: string, key: string, rest: string, m: Merge)
    requires '{' !in t && PlainKey(key)
    ensures Fill(t + (Placeholder(key) + rest), m) == t + (Lookup(m, key) + Fill(rest, m))
  {
    FillPlainPrefix(t, Placeholder(key) + rest, m);
    FillPlaceholder(key, rest, m);
  }

  /** Plain text, then a placeholder with a key other than the three map keys: the placeholder
      is dropped. */
  lemma FillTextThenUnknownKey(t: string, key: string, rest: string, m: Merge)
    requires '{' !in t && PlainKey(key)
    requires key != "firstName" && key != "lastName" && key != "email"
    ensures Fill(t + (Placeholder(key) + rest), m) == t + Fill(rest, m)
  {
    FillTextThenPlaceholder(t, key, rest, m);
    assert Lookup(m, key) + Fill(rest, m) == Fill(rest, m);
  }

  /** Plain text ending in a placeholder with a key other than the three map keys: only the
      text is left. */
  lemma FillTextEndingInUnknownKey(t: string, key: string, m: Merge)
    requires '{' !in t && PlainKey(key)
    requires key != "firstName" && key != "lastName" && key != "email"
    ensures Fill(t + Placeholder(key), m) == t
  {
    var p := Placeholder(key);
    assert p + [] == p;
    FillTextThenUnknownKey(t, key, [], m);
    assert t + [] == t;
  }
}
