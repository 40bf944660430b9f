/** The pieces of the Java and Commons Lang string libraries that the
    service-principal code calls: `Character.isWhitespace`,
    `StringUtils.isBlank`, `String.split` with a one-character separator and
    `String.equalsIgnoreCase`. */
module JavaStrings {
  import opened Wrappers

  /** A Java `String` reference: `None` stands for `null`. */
  type JString = Option<string>

  /** `Character.isWhitespace`: the Unicode space, line and paragraph
      separators except the three no-break spaces (U+00A0, U+2007, U+202F),
      plus the controls U+0009..U+000D and U+001C..U+001F. */
  predicate IsWhitespace(c: char) {
    || c == ' '
    || '\t' <= c <= '\r'
    || '\U{1C}' <= c <= '\U{1F}'
    || c == '\U{1680}'
    || '\U{2000}' <= c <= '\U{2006}'
    || '\U{2008}' <= c <= '\U{200A}'
    || c == '\U{2028}' || c == '\U{2029}'
    || c == '\U{205F}' || c == '\U{3000}'
  }

  /** `StringUtils.isBlank` of a non-null string: empty or whitespace only. */
  predicate Blank(s: string)
    ensures |s| == 0 ==> Blank(s)
    ensures forall i :: 0 <= i < |s| && !IsWhitespace(s[i]) ==> !Blank(s)
  {
    forall i :: 0 <= i < |s| ==> IsWhitespace(s[i])
  }

  /** `StringUtils.isBlank` of a possibly null reference. */
  predicate BlankOrNull(s: JString)
    ensures s.None? ==> BlankOrNull(s)
    ensures s.Some? ==> (BlankOrNull(s) <==> Blank(s.value))
  {
    s.None? || Blank(s.value)
  }

  /** `Util.fixNull`: a null string reads as the empty string. */
  function FixNull(s: JString): (r: string)
    ensures s.None? ==> r == ""
    ensures s.Some? ==> r == s.value
    ensures BlankOrNull(s) <==> Blank(r)
  {
    s.GetOr("")
  }

  /** Position of the first `d` in `s`, or `|s|` when there is none. */
  function IndexOf(s: string, d: char): (i: nat)
    ensures i <= |s|
    ensures i < |s| ==> s[i] == d
    ensures forall k :: 0 <= k < i ==> s[k] != d
  {
    if s == [] then 0
    else if s[0] == d then 0
    else 1 + IndexOf(s[1..], d)
  }

  /** Every field of `s` between occurrences of `d`, empty ones included. */
  function Fields(s: string, d: char): (fs: seq<string>)
    ensures |fs| >= 1
    decreases |s|
  {
    var i := IndexOf(s, d);
    if i == |s| then [s] else [s[..i]] + Fields(s[i + 1..], d)
  }

  /** The first field runs up to the first separator, and no field contains
      the separator. */
  lemma {:induction false} FieldsAreSeparatorFree(s: string, d: char)
    ensures Fields(s, d)[0] == s[..IndexOf(s, d)]
    ensures forall k :: 0 <= k < |Fields(s, d)| ==> d !in Fields(s, d)[k]
    decreases |s|
  {
    var i := IndexOf(s, d);
    if i < |s| {
      FieldsAreSeparatorFree(s[i + 1..], d);
      assert d !in s[..i] by {
        forall k | 0 <= k < i ensures s[..i][k] != d {}
      }
    } else {
      assert d !in s by {
        forall k | 0 <= k < |s| ensures s[k] != d {}
      }
    }
  }

  /** One step of splitting: the field before the first `d` at `i`, then the
      fields of what follows it. */
  lemma FieldsStep(s: string, d: char, i: nat)
    requires i < |s| && s[i] == d
    requires forall k :: 0 <= k < i ==> s[k] != d
    ensures Fields(s, d) == [s[..i]] + Fields(s[i + 1..], d)
  {
    assert IndexOf(s, d) == i;
  }

  /** The fields put back together with `d` between them. */
  function Join(fs: seq<string>, d: char): string
    decreases |fs|
  {
    if |fs| == 0 then ""
    else if |fs| == 1 then fs[0]
    else fs[0] + [d] + Join(fs[1..], d)
  }

  /** Joining the fields of `s` gives `s` back, so no character is lost. */
  lemma {:induction false} JoinFields(s: string, d: char)
    ensures Join(Fields(s, d), d) == s
    decreases |s|
  {
    var i := IndexOf(s, d);
    if i < |s| {
      var rest := s[i + 1..];
      JoinFields(rest, d);
      var fs := Fields(s, d);
      assert fs == [s[..i]] + Fields(rest, d);
      assert fs[1..] == Fields(rest, d);
      assert s == s[..i] + [d] + rest;
    }
  }

  /** The list without its trailing empty strings. */
  function DropTrailingEmpty(fs: seq<string>): (r: seq<string>)
    ensures |r| <= |fs| && r == fs[..|r|]
    ensures r == [] || r[|r| - 1] != ""
    ensures forall k :: |r| <= k < |fs| ==> fs[k] == ""
    decreases |fs|
  {
    if fs != [] && fs[|fs| - 1] == "" then DropTrailingEmpty(fs[..|fs| - 1]) else fs
  }

  /** `s.split(d)` with the default limit 0: the whole string when `d` does
      not occur, otherwise the fields with trailing empty ones removed. */
  function Split(s: string, d: char): (parts: seq<string>)
    ensures |parts| <= |Fields(s, d)| && parts == Fields(s, d)[..|parts|]
    ensures forall k :: |parts| <= k < |Fields(s, d)| ==> Fields(s, d)[k] == ""
    ensures d !in s ==> parts == [s]
    ensures d in s ==> parts == [] || parts[|parts| - 1] != ""
  {
    if d !in s then [s] else DropTrailingEmpty(Fields(s, d))
  }

  /** Upper case of an ASCII letter; any other character is unchanged. */
  function AsciiUpper(c: char): char {
    if 'a' <= c <= 'z' then (c as int - 32) as char else c
  }

  /** `String.equalsIgnoreCase` on two non-null strings, with case folding
      restricted to ASCII letters. */
  predicate EqualsIgnoreCase(a: string, b: string)
    ensures a == b ==> EqualsIgnoreCase(a, b)
    ensures EqualsIgnoreCase(a, b) <==> |a| == |b| && forall k :: 0 <= k < |a| ==> AsciiUpper(a[k]) == AsciiUpper(b[k])
  {
    |a| == |b| && forall k :: 0 <= k < |a| ==> a[k] == b[k] || AsciiUpper(a[k]) == AsciiUpper(b[k])
  }

  /** Comparing ignoring case is reflexive, symmetric and transitive, and
      strings that differ in length never compare equal. */
  lemma EqualsIgnoreCaseIsEquivalence(a: string, b: string, c: string)
    ensures EqualsIgnoreCase(a, a)
    ensures EqualsIgnoreCase(a, b) <==> EqualsIgnoreCase(b, a)
    ensures EqualsIgnoreCase(a, b) && EqualsIgnoreCase(b, c) ==> EqualsIgnoreCase(a, c)
    ensures |a| != |b| ==> !EqualsIgnoreCase(a, b)
  {
    if EqualsIgnoreCase(a, b) && EqualsIgnoreCase(b, c) {
      forall k | 0 <= k < |a| ensures AsciiUpper(a[k]) == AsciiUpper(c[k]) {
        assert AsciiUpper(a[k]) == AsciiUpper(b[k]) == AsciiUpper(c[k]);
      }
    }
  }
}
