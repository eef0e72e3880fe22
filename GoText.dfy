/**
 * The parts of Go's standard library that the directive processor relies on:
 * `unicode.IsSpace`, `strings.Fields` and `strconv.ParseBool` (with
 * `strconv.FormatBool` as its inverse). Strings are sequences of Unicode
 * scalar values, i.e. already-decoded runes.
 */
module GoText {
  import opened Wrappers

  /** The ASCII white-space table `strings.Fields` consults for ASCII input. */
  const AsciiSpace: seq<char> := ['\t', '\n', '\U{B}', '\U{C}', '\r', ' ']

  /** `unicode.IsSpace`: the Unicode White_Space property. */
  predicate IsSpace(c: char) {
    c == '\t' || c == '\n' || c == '\U{B}' || c == '\U{C}' || c == '\r' || c == ' '
    || c == '\U{85}' || c == '\U{A0}' || c == '\U{1680}'
    || ('\U{2000}' <= c <= '\U{200A}')
    || c == '\U{2028}' || c == '\U{2029}' || c == '\U{202F}' || c == '\U{205F}' || c == '\U{3000}'
  }

  /** On ASCII, `IsSpace` is the table `strings.Fields` uses; no white space lies beyond U+3000. */
  lemma IsSpaceTable(c: char)
    ensures c < '\U{80}' ==> (IsSpace(c) <==> c in AsciiSpace)
    ensures IsSpace(c) ==> c <= '\U{3000}'
  {
  }

  /** A field as `strings.Fields` produces it: non-empty, no white space in it. */
  predicate IsField(w: string) {
    w != [] && forall k :: 0 <= k < |w| ==> !IsSpace(w[k])
  }

  /** Length of the longest prefix of `s` that holds no white space. */
  function WordLen(s: string): (n: nat)
    ensures n <= |s|
    ensures forall k :: 0 <= k < n ==> !IsSpace(s[k])
    ensures n < |s| ==> IsSpace(s[n])
  {
    if s == [] || IsSpace(s[0]) then 0 else 1 + WordLen(s[1..])
  }

  /** `strings.Fields`: the maximal runs of non-space characters of `s`, in order. */
  function Fields(s: string): (r: seq<string>)
    ensures forall k :: 0 <= k < |r| ==> IsField(r[k])
    decreases |s|
  {
    if s == [] then []
    else if IsSpace(s[0]) then Fields(s[1..])
    else
      var n := WordLen(s);
      [s[..n]] + Fields(s[n..])
  }

  /** `strings.Join(fs, " ")`. */
  function JoinSpace(fs: seq<string>): string {
    if |fs| == 0 then ""
    else if |fs| == 1 then fs[0]
    else fs[0] + " " + JoinSpace(fs[1..])
  }

  /** The characters of `s` that are not white space, in order. */
  function NonSpace(s: string): (r: string)
    ensures |r| <= |s|
    ensures forall k :: 0 <= k < |r| ==> !IsSpace(r[k])
  {
    if s == [] then []
    else (if IsSpace(s[0]) then [] else [s[0]]) + NonSpace(s[1..])
  }

  /** Concatenation of a sequence of strings. */
  function Concat(fs: seq<string>): string {
    if fs == [] then [] else fs[0] + Concat(fs[1..])
  }

  /** The literal spellings that `strconv.ParseBool` accepts. */
  const TrueSpellings: seq<string> := ["1", "t", "T", "true", "TRUE", "True"]
  const FalseSpellings: seq<string> := ["0", "f", "F", "false", "FALSE", "False"]

  /** `strconv.ParseBool`; `None` stands for the returned syntax error. */
  function ParseBool(s: string): (r: Option<bool>)
    ensures r.Some? <==> s in TrueSpellings || s in FalseSpellings
    ensures r.Some? ==> 1 <= |s| <= 5
    ensures r == Some(true) ==> s[0] in "1tT"
    ensures r == Some(false) ==> s[0] in "0fF"
  {
    if s in TrueSpellings then Some(true)
    else if s in FalseSpellings then Some(false)
    else None
  }

  /** `strconv.FormatBool`. */
  function FormatBool(b: bool): string {
    if b then "true" else "false"
  }

  /** `ParseBool` reads back what `FormatBool` writes, and what it writes is one field. */
  lemma ParseFormatBool(b: bool)
    ensures ParseBool(FormatBool(b)) == Some(b)
    ensures IsField(FormatBool(b))
  {
  }

  /** A field followed by nothing or by white space is read as one whole word. */
  lemma {:induction false} WordLenOfField(w: string, rest: string)
    requires IsField(w)
    requires rest == [] || IsSpace(rest[0])
    ensures WordLen(w + rest) == |w|
    decreases |w|
  {
    var s := w + rest;
    assert s[0] == w[0];
    if |w| > 1 {
      assert s[1..] == w[1..] + rest;
      WordLenOfField(w[1..], rest);
    } else {
      assert s[1..] == rest;
    }
  }

  /** `Fields` of a field followed by white space (or nothing) starts with that field. */
  lemma FieldsOfFieldThen(w: string, rest: string)
    requires IsField(w)
    requires rest == [] || IsSpace(rest[0])
    ensures Fields(w + rest) == [w] + Fields(rest)
  {
    WordLenOfField(w, rest);
    var s := w + rest;
    assert s[..|w|] == w;
    assert s[|w|..] == rest;
  }

  /** Splitting what `strings.Join(fs, " ")` produced gives `fs` back, when every element is a field. */
  lemma {:induction false} FieldsOfJoin(fs: seq<string>)
    requires forall k :: 0 <= k < |fs| ==> IsField(fs[k])
    ensures Fields(JoinSpace(fs)) == fs
    decreases |fs|
  {
    if |fs| == 0 {
    } else if |fs| == 1 {
      FieldsOfFieldThen(fs[0], []);
      assert fs[0] + [] == fs[0];
    } else {
      var tail := JoinSpace(fs[1..]);
      assert JoinSpace(fs) == fs[0] + (" " + tail);
      FieldsOfFieldThen(fs[0], " " + tail);
      assert (" " + tail)[1..] == tail;
      FieldsOfJoin(fs[1..]);
      assert fs == [fs[0]] + fs[1..];
    }
  }

  /** A word ends where it ended before when more text starting with white space is added. */
  lemma {:induction false} WordLenAppend(a: string, t: string)
    requires t == [] || IsSpace(t[0])
    ensures WordLen(a + t) == WordLen(a)
    decreases |a|
  {
    if a == [] {
      assert a + t == t;
    } else {
      assert (a + t)[0] == a[0];
      assert (a + t)[1..] == a[1..] + t;
      WordLenAppend(a[1..], t);
    }
  }

  /** Text that starts with white space is split on its own: the fields of a + t are those of a followed by those of t. */
  lemma {:induction false} FieldsAppendSpaced(a: string, t: string)
    requires t != [] && IsSpace(t[0])
    ensures Fields(a + t) == Fields(a) + Fields(t)
    decreases |a|
  {
    var s := a + t;
    if a == [] {
      assert s == t;
    } else if IsSpace(a[0]) {
      assert s[0] == a[0] && s[1..] == a[1..] + t;
      FieldsAppendSpaced(a[1..], t);
      calc {
        Fields(s);
        Fields(a[1..] + t);
        Fields(a[1..]) + Fields(t);
        Fields(a) + Fields(t);
      }
    } else {
      assert s[0] == a[0];
      var n := WordLen(a);
      WordLenAppend(a, t);
      assert s[..n] == a[..n];
      assert s[n..] == a[n..] + t;
      FieldsAppendSpaced(a[n..], t);
      calc {
        Fields(s);
        [a[..n]] + Fields(a[n..] + t);
        [a[..n]] + (Fields(a[n..]) + Fields(t));
        ([a[..n]] + Fields(a[n..])) + Fields(t);
        Fields(a) + Fields(t);
      }
    }
  }

  /** Every white-space character separates fields: the fields of a + [c] + b are those of a followed by those of b. */
  lemma FieldsSplitAtSpace(a: string, c: char, b: string)
    requires IsSpace(c)
    ensures Fields(a + [c] + b) == Fields(a) + Fields(b)
  {
    assert a + [c] + b == a + ([c] + b);
    FieldsAppendSpaced(a, [c] + b);
    assert ([c] + b)[1..] == b;
  }

  /** A single field splits into itself. */
  lemma FieldsOfField(w: string)
    requires IsField(w)
    ensures Fields(w) == [w]
  {
    FieldsOfFieldThen(w, []);
    assert w + [] == w;
  }

  lemma {:induction false} NonSpaceAppend(a: string, b: string)
    ensures NonSpace(a + b) == NonSpace(a) + NonSpace(b)
    decreases |a|
  {
    if a == [] {
      assert a + b == b;
    } else {
      assert (a + b)[1..] == a[1..] + b;
      NonSpaceAppend(a[1..], b);
    }
  }

  lemma {:induction false} NonSpaceOfWord(w: string)
    requires forall k :: 0 <= k < |w| ==> !IsSpace(w[k])
    ensures NonSpace(w) == w
    decreases |w|
  {
    if w != [] {
      NonSpaceOfWord(w[1..]);
      assert w == [w[0]] + w[1..];
    }
  }

  /** `strings.Fields` drops exactly the white space: its fields, put back together, are the other characters in order. */
  lemma {:induction false} ConcatFields(s: string)
    ensures Concat(Fields(s)) == NonSpace(s)
    decreases |s|
  {
    if s == [] {
    } else if IsSpace(s[0]) {
      ConcatFields(s[1..]);
    } else {
      var n := WordLen(s);
      assert s == s[..n] + s[n..];
      ConcatFields(s[n..]);
      NonSpaceAppend(s[..n], s[n..]);
      NonSpaceOfWord(s[..n]);
      var r := [s[..n]] + Fields(s[n..]);
      assert r[0] == s[..n] && r[1..] == Fields(s[n..]);
    }
  }

  /** `strings.Fields` returns no field exactly when the string is all white space. */
  lemma {:induction false} FieldsEmptyIffAllSpace(s: string)
    ensures Fields(s) == [] <==> forall k :: 0 <= k < |s| ==> IsSpace(s[k])
    decreases |s|
  {
    if s != [] && IsSpace(s[0]) {
      FieldsEmptyIffAllSpace(s[1..]);
      if forall k :: 0 <= k < |s| - 1 ==> IsSpace(s[1..][k]) {
        forall k | 0 <= k < |s| ensures IsSpace(s[k]) {
          if k > 0 { assert s[k] == s[1..][k - 1]; }
        }
      }
    }
  }
}
