/**
 * The .NET string operations the controllers rely on: char.IsWhiteSpace,
 * string.IsNullOrWhiteSpace, Trim / Trim(char), Split (with and without
 * RemoveEmptyEntries) and ToLowerInvariant; IndexOf serves the decimal parser.
 */
module Text {
  import opened Wrappers

  /** .NET's char.IsWhiteSpace: U+0009..U+000D, U+0020, U+0085, U+00A0 and the
      Unicode space, line and paragraph separators. */
  predicate IsWhiteSpace(c: char) {
    ('\t' <= c <= '\r') || c == ' ' || c == '\U{85}' || c == '\U{A0}' || c == '\U{1680}'
    || ('\U{2000}' <= c <= '\U{200A}') || c == '\U{2028}' || c == '\U{2029}'
    || c == '\U{202F}' || c == '\U{205F}' || c == '\U{3000}'
  }

  /** The separators of the upload's line split. */
  const LineBreaks: set<char> := {'\r', '\n'}

  /** string.IsNullOrWhiteSpace on a non-null string: every character is white space. */
  predicate IsBlank(s: string) {
    forall i :: 0 <= i < |s| ==> IsWhiteSpace(s[i])
  }

  predicate NoneIn(s: string, chars: set<char>) {
    forall i :: 0 <= i < |s| ==> s[i] !in chars
  }

  /** String.TrimStart: drops the leading characters that `strip` selects. */
  function TrimStart(s: string, strip: char -> bool): (r: string)
    ensures |r| <= |s| && r == s[|s| - |r|..]
    ensures r != [] ==> !strip(r[0])
    ensures forall i :: 0 <= i < |s| - |r| ==> strip(s[i])
  {
    if |s| > 0 && strip(s[0]) then
      var r := TrimStart(s[1..], strip);
      assert forall i :: 1 <= i < |s| - |r| ==> s[i] == s[1..][i - 1];
      r
    else s
  }

  /** String.TrimEnd: drops the trailing characters that `strip` selects. */
  function TrimEnd(s: string, strip: char -> bool): (r: string)
    ensures |r| <= |s| && r == s[..|r|]
    ensures r != [] ==> !strip(r[|r| - 1])
    ensures forall i :: |r| <= i < |s| ==> strip(s[i])
  {
    if |s| > 0 && strip(s[|s| - 1]) then TrimEnd(s[..|s| - 1], strip) else s
  }

  /** String.Trim(chars): drops every leading and every trailing character `strip` selects. */
  function TrimChars(s: string, strip: char -> bool): (r: string)
    ensures |r| <= |s|
    ensures r == [] || (!strip(r[0]) && !strip(r[|r| - 1]))
    ensures r == [] <==> forall i :: 0 <= i < |s| ==> strip(s[i])
  {
    var t := TrimStart(s, strip);
    assert t == [] ==> forall i :: 0 <= i < |s| ==> strip(s[i]);
    assert (forall i :: 0 <= i < |s| ==> strip(s[i])) ==> t == [] by {
      if t != [] { assert t[0] == s[|s| - |t|]; }
    }
    TrimEnd(t, strip)
  }

  /**
   * `r` is the part of `s` from position `i` on, with nothing but strippable
   * characters before and after it, and neither of its ends strippable.
   */
  predicate TrimmedOf(r: string, s: string, i: int, strip: char -> bool) {
    && 0 <= i && i + |r| <= |s| && (forall j :: 0 <= j < |r| ==> r[j] == s[i + j])
    && (forall k :: 0 <= k < i ==> strip(s[k]))
    && (forall k :: i + |r| <= k < |s| ==> strip(s[k]))
    && (r == [] || (!strip(r[0]) && !strip(r[|r| - 1])))
  }

  /**
   * Trim(chars) removes a strippable prefix and a strippable suffix and
   * nothing else: the result is the slice of `s` that starts at the first
   * character to keep and ends at the last one.
   */
  lemma TrimCharsSlice(s: string, strip: char -> bool)
    ensures TrimmedOf(TrimChars(s, strip), s, |s| - |TrimStart(s, strip)|, strip)
  {
    OneSidedTrimsSlice(s, strip);
    TrimCharsIsBothTrims(s, strip);
  }

  /** The prefix-and-suffix description fixes the trimmed text: two results that both meet it are equal. */
  lemma TrimmedUnique(r: string, i: int, r': string, i': int, s: string, strip: char -> bool)
    requires TrimmedOf(r, s, i, strip) && TrimmedOf(r', s, i', strip)
    ensures r == r'
  {
    if r != [] && r' != [] {
      assert i == i';
      assert |r| == |r'|;
    }
  }

  /** Trimming a middle with nothing strippable at its ends, padded with strippable text, gives the middle. */
  lemma TrimPadding(lead: string, m: string, trail: string, strip: char -> bool)
    requires forall k :: 0 <= k < |lead| ==> strip(lead[k])
    requires forall k :: 0 <= k < |trail| ==> strip(trail[k])
    requires m == [] || (!strip(m[0]) && !strip(m[|m| - 1]))
    ensures TrimChars(lead + m + trail, strip) == m
  {
    var s := lead + m + trail;
    assert forall j :: 0 <= j < |m| ==> s[|lead| + j] == m[j];
    assert forall k :: 0 <= k < |lead| ==> s[k] == lead[k];
    assert forall k :: |lead| + |m| <= k < |s| ==> s[k] == trail[k - |lead| - |m|];
    assert TrimmedOf(m, s, |lead|, strip);
    TrimCharsSlice(s, strip);
    TrimmedUnique(TrimChars(s, strip), |s| - |TrimStart(s, strip)|, m, |lead|, s, strip);
  }

  lemma TrimCharsIsBothTrims(s: string, strip: char -> bool)
    ensures TrimChars(s, strip) == TrimEnd(TrimStart(s, strip), strip)
  {
  }

  /**
   * TrimEnd after TrimStart leaves such a slice. (Written `== true` so that
   * the verifier takes the predicate whole instead of unfolding it here.)
   */
  lemma OneSidedTrimsSlice(s: string, strip: char -> bool)
    ensures TrimmedOf(TrimEnd(TrimStart(s, strip), strip), s, |s| - |TrimStart(s, strip)|, strip) == true
  {
    var t := TrimStart(s, strip);
    StartTrimmed(s, strip);
    EndTrimmed(t, strip);
    TrimmedSlice(s, t, TrimEnd(t, strip), strip);
  }

  /** `t` is `s` without a strippable prefix, and does not start with a strippable character. */
  predicate StartFacts(s: string, t: string, strip: char -> bool) {
    && |t| <= |s| && (forall j :: 0 <= j < |t| ==> t[j] == s[|s| - |t| + j]) && (t != [] ==> !strip(t[0]))
    && forall k :: 0 <= k < |s| - |t| ==> strip(s[k])
  }

  /** `r` is `t` without a strippable suffix, and does not end with a strippable character. */
  predicate EndFacts(t: string, r: string, strip: char -> bool) {
    && |r| <= |t| && (forall j :: 0 <= j < |r| ==> r[j] == t[j]) && (r != [] ==> !strip(r[|r| - 1]))
    && forall j :: |r| <= j < |t| ==> strip(t[j])
  }

  lemma StartTrimmed(s: string, strip: char -> bool)
    ensures StartFacts(s, TrimStart(s, strip), strip)
  {
  }

  lemma EndTrimmed(t: string, strip: char -> bool)
    ensures EndFacts(t, TrimEnd(t, strip), strip)
  {
  }

  /** The two one-sided trims together leave a slice of `s` with strippable text on both sides. */
  lemma TrimmedSlice(s: string, t: string, r: string, strip: char -> bool)
    requires StartFacts(s, t, strip) && EndFacts(t, r, strip)
    ensures TrimmedOf(r, s, |s| - |t|, strip)
  {
    var i := |s| - |t|;
    forall k | i + |r| <= k < |s| ensures strip(s[k]) {
      assert s[k] == t[k - i];
    }
  }

  /** String.Trim(): white space at both ends removed. */
  function Trim(s: string): (r: string)
    ensures r == [] <==> IsBlank(s)
    ensures Unpadded(r)
  {
    TrimChars(s, IsWhiteSpace)
  }

  /** A string with nothing to strip at either end comes back unchanged. */
  lemma {:induction false} TrimCharsUnchanged(s: string, strip: char -> bool)
    requires s == [] || (!strip(s[0]) && !strip(s[|s| - 1]))
    ensures TrimChars(s, strip) == s
  {
    assert TrimStart(s, strip) == s;
    assert TrimEnd(s, strip) == s;
  }

  /** No white space at either end: what Trim leaves. */
  predicate Unpadded(s: string) {
    s == [] || (!IsWhiteSpace(s[0]) && !IsWhiteSpace(s[|s| - 1]))
  }

  /** Trim leaves an unpadded string as it is. */
  lemma TrimUnpadded(s: string)
    requires Unpadded(s)
    ensures Trim(s) == s
  {
    TrimCharsUnchanged(s, IsWhiteSpace);
  }

  lemma TrimCharsIdempotent(s: string, strip: char -> bool)
    ensures TrimChars(TrimChars(s, strip), strip) == TrimChars(s, strip)
  {
    TrimCharsUnchanged(TrimChars(s, strip), strip);
  }

  /** The index of the first `c` in `s` (String.IndexOf(char)). */
  function IndexOf(s: string, c: char): (r: Option<nat>)
    ensures r.None? <==> c !in s
    ensures r.Some? ==> r.value < |s| && s[r.value] == c && c !in s[..r.value]
  {
    if s == [] then None
    else if s[0] == c then Some(0)
    else
      match IndexOf(s[1..], c)
      case None => None
      case Some(k) => assert s[..k + 1] == [s[0]] + s[1..][..k]; Some(k + 1)
  }

  /** The number of characters of `s` that are in `chars`. */
  function CountIn(s: string, chars: set<char>): nat {
    if s == [] then 0 else (if s[0] in chars then 1 else 0) + CountIn(s[1..], chars)
  }

  /**
   * String.Split over a set of separator characters with empty entries kept:
   * one part more than there are separators, no part holding a separator.
   */
  function Split(s: string, seps: set<char>): (r: seq<string>)
    ensures |r| == CountIn(s, seps) + 1
    ensures forall k :: 0 <= k < |r| ==> NoneIn(r[k], seps)
  {
    if s == [] then [""]
    else
      var rest := Split(s[1..], seps);
      if s[0] in seps then [""] + rest
      else [[s[0]] + rest[0]] + rest[1..]
  }

  /** String.Join(sep, parts), the inverse of splitting on one character. */
  function Join(parts: seq<string>, sep: char): string
    requires |parts| >= 1
  {
    if |parts| == 1 then parts[0] else parts[0] + [sep] + Join(parts[1..], sep)
  }

  lemma {:induction false} SplitJoin(s: string, sep: char)
    ensures Join(Split(s, {sep}), sep) == s
  {
    if s != [] {
      SplitJoin(s[1..], sep);
      var rest := Split(s[1..], {sep});
      if s[0] != sep {
        if |rest| == 1 {
        } else {
          assert Join(rest, sep) == rest[0] + [sep] + Join(rest[1..], sep);
          var r := [[s[0]] + rest[0]] + rest[1..];
          assert r[1..] == rest[1..];
          assert Join(r, sep) == [s[0]] + rest[0] + [sep] + Join(rest[1..], sep);
        }
      } else {
        assert ([""] + rest)[1..] == rest;
      }
    }
  }

  /** Joining parts that hold no separator and splitting again gives the parts back. */
  lemma {:induction false} JoinSplit(parts: seq<string>, sep: char)
    requires |parts| >= 1
    requires forall k :: 0 <= k < |parts| ==> sep !in parts[k]
    ensures Split(Join(parts, sep), {sep}) == parts
  {
    if |parts| == 1 {
      SplitOfNoSeparator(parts[0], {sep});
    } else {
      JoinSplit(parts[1..], sep);
      SplitAfterField(parts[0], sep, Join(parts[1..], sep), {sep});
      assert [parts[0]] + parts[1..] == parts;
    }
  }

  /** A character in none of the parts and other than the separator is not in their join. */
  lemma {:induction false} NotInJoin(parts: seq<string>, sep: char, c: char)
    requires |parts| >= 1 && c != sep
    requires forall k :: 0 <= k < |parts| ==> c !in parts[k]
    ensures c !in Join(parts, sep)
  {
    if |parts| > 1 {
      NotInJoin(parts[1..], sep, c);
    }
  }

  /** Splitting `a + [c] + b` where `a` holds no separator: `a` is the first part. */
  lemma {:induction false} SplitAfterField(a: string, c: char, b: string, seps: set<char>)
    requires c in seps && NoneIn(a, seps)
    ensures Split(a + [c] + b, seps) == [a] + Split(b, seps)
  {
    if a == [] {
      assert [c] + b == [c] + b;
      assert ([c] + b)[1..] == b;
    } else {
      assert (a + [c] + b)[1..] == a[1..] + [c] + b;
      SplitAfterField(a[1..], c, b, seps);
      assert [a[0]] + a[1..] == a;
    }
  }

  /** A separator cuts the text in two: the parts of `a`, then the parts of `b`, the last of `a` and first of `b` not merged. */
  lemma {:induction false} SplitAtSeparator(a: string, c: char, b: string, seps: set<char>)
    requires c in seps
    ensures Split(a + [c] + b, seps) == Split(a, seps) + Split(b, seps)
  {
    if a == [] {
      assert ([c] + b)[1..] == b;
    } else {
      SplitAtSeparator(a[1..], c, b, seps);
      SplitAtSeparatorStep(a, c, b, seps);
    }
  }

  /** The inductive step of SplitAtSeparator: the first character of `a` goes the same way on both sides. */
  lemma SplitAtSeparatorStep(a: string, c: char, b: string, seps: set<char>)
    requires a != []
    requires Split(a[1..] + [c] + b, seps) == Split(a[1..], seps) + Split(b, seps)
    ensures Split(a + [c] + b, seps) == Split(a, seps) + Split(b, seps)
  {
    var s := a + [c] + b;
    assert s[0] == a[0] && s[1..] == a[1..] + [c] + b;
    SplitStep(s, seps);
    SplitStep(a, seps);
    var rest, tail := Split(a[1..], seps), Split(b, seps);
    if a[0] in seps {
      ConsAppend("", rest, tail);
    } else {
      assert rest != [];
      JoinedFirstAppend(a[0], rest, tail);
    }
  }

  /** Putting a part in front commutes with appending further parts. */
  lemma ConsAppend(first: string, rest: seq<string>, tail: seq<string>)
    ensures [first] + (rest + tail) == ([first] + rest) + tail
  {
  }

  /** Joining a character onto the first part commutes with appending further parts. */
  lemma JoinedFirstAppend(x: char, rest: seq<string>, tail: seq<string>)
    requires rest != []
    ensures var both := rest + tail; [[x] + both[0]] + both[1..] == ([[x] + rest[0]] + rest[1..]) + tail
  {
    var both := rest + tail;
    assert both[0] == rest[0] && both[1..] == rest[1..] + tail;
  }

  /** One step of Split: the first character either separates or joins the first part. */
  lemma SplitStep(s: string, seps: set<char>)
    requires s != []
    ensures Split(s, seps)
            == if s[0] in seps then [""] + Split(s[1..], seps) else [[s[0]] + Split(s[1..], seps)[0]] + Split(s[1..], seps)[1..]
  {
  }

  lemma {:induction false} SplitOfNoSeparator(s: string, seps: set<char>)
    requires NoneIn(s, seps)
    ensures Split(s, seps) == [s]
  {
    if s != [] {
      SplitOfNoSeparator(s[1..], seps);
      assert s[0] !in seps;
      assert [s[0]] + s[1..] == s;
    }
  }

  /** The non-empty parts, in order (StringSplitOptions.RemoveEmptyEntries). */
  function RemoveEmpty(parts: seq<string>): (r: seq<string>)
    ensures |r| <= |parts|
    ensures forall k :: 0 <= k < |r| ==> r[k] != [] && r[k] in parts
    ensures forall p :: p in parts && p != [] ==> p in r
    ensures r == [] <==> forall k :: 0 <= k < |parts| ==> parts[k] == []
  {
    if parts == [] then []
    else if parts[0] == [] then RemoveEmpty(parts[1..])
    else [parts[0]] + RemoveEmpty(parts[1..])
  }

  /** Removing empty entries keeps order and multiplicity: it distributes over concatenation. */
  lemma {:induction false} RemoveEmptyAppend(a: seq<string>, b: seq<string>)
    ensures RemoveEmpty(a + b) == RemoveEmpty(a) + RemoveEmpty(b)
  {
    if a == [] {
      assert a + b == b;
    } else {
      assert (a + b)[0] == a[0] && (a + b)[1..] == a[1..] + b;
      RemoveEmptyAppend(a[1..], b);
    }
  }

  /** Text.Split(new[] { '\r', '\n' }, StringSplitOptions.RemoveEmptyEntries). */
  function SplitLines(s: string): (r: seq<string>)
    ensures forall k :: 0 <= k < |r| ==> r[k] != [] && NoneIn(r[k], LineBreaks)
    ensures r == [] <==> forall i :: 0 <= i < |s| ==> s[i] in LineBreaks
  {
    SplitLinesEmpty(s);
    RemoveEmpty(Split(s, LineBreaks))
  }

  /** No line is left exactly when the text is line breaks only. */
  lemma {:induction false} SplitLinesEmpty(s: string)
    ensures RemoveEmpty(Split(s, LineBreaks)) == [] <==> forall i :: 0 <= i < |s| ==> s[i] in LineBreaks
  {
    if s != [] {
      SplitLinesEmpty(s[1..]);
      var rest := Split(s[1..], LineBreaks);
      if s[0] in LineBreaks {
        assert Split(s, LineBreaks) == [""] + rest;
        assert RemoveEmpty(Split(s, LineBreaks)) == RemoveEmpty(rest);
        assert forall i :: 1 <= i < |s| ==> s[i] == s[1..][i - 1];
      } else {
        assert Split(s, LineBreaks)[0] == [s[0]] + rest[0];
      }
    }
  }

  /** A line break cuts the text: the lines before it, then the lines after it, in order. */
  lemma SplitLinesAtBreak(a: string, c: char, b: string)
    requires c in LineBreaks
    ensures SplitLines(a + [c] + b) == SplitLines(a) + SplitLines(b)
  {
    SplitAtSeparator(a, c, b, LineBreaks);
    RemoveEmptyAppend(Split(a, LineBreaks), Split(b, LineBreaks));
  }

  /** A non-empty run without line breaks is one line. */
  lemma SplitLinesOfLine(s: string)
    requires s != [] && NoneIn(s, LineBreaks)
    ensures SplitLines(s) == [s]
  {
    SplitOfNoSeparator(s, LineBreaks);
  }

  /** A non-empty first line without line breaks is the first entry of the split. */
  lemma SplitLinesFirst(header: string, body: string)
    requires header != [] && NoneIn(header, LineBreaks)
    ensures SplitLines(header + "\n" + body) == [header] + SplitLines(body)
  {
    SplitLinesAtBreak(header, '\n', body);
    SplitLinesOfLine(header);
  }

  /**
   * The capitals Char.ToLowerInvariant maps here: A-Z, the Latin-1 capitals
   * U+00C0-U+00DE other than the multiplication sign, every capital of the
   * Greek and Coptic block U+0370-U+03FF that has a lower-case form, and the
   * Cyrillic capitals U+0400-U+042F.
   */
  predicate IsCapital(c: char) {
    ('A' <= c <= 'Z')
    || ('\U{C0}' <= c <= '\U{DE}' && c != '\U{D7}')
    || IsGreekCapital(c)
    || ('\U{400}' <= c <= '\U{42F}')
  }

  /**
   * The Greek and Coptic capitals with a lower-case form: Heta, archaic Sampi,
   * Pamphylian Digamma and Yot, the accented capitals, Alpha to Omega with
   * the dialytika forms, the Kai symbol, the archaic and Coptic letters
   * U+03D8-U+03EE, and the capital symbols U+03F4-U+03FF.
   */
  predicate IsGreekCapital(c: char) {
    c == '\U{370}' || c == '\U{372}' || c == '\U{376}' || c == '\U{37F}'
    || c == '\U{386}' || ('\U{388}' <= c <= '\U{38A}') || c == '\U{38C}' || ('\U{38E}' <= c <= '\U{38F}')
    || ('\U{391}' <= c <= '\U{3AB}' && c != '\U{3A2}')
    || c == '\U{3CF}' || ('\U{3D8}' <= c <= '\U{3EE}' && (c as int) % 2 == 0)
    || c == '\U{3F4}' || c == '\U{3F7}' || c == '\U{3F9}' || c == '\U{3FA}' || ('\U{3FD}' <= c <= '\U{3FF}')
  }

  /** Char.ToLowerInvariant on the Greek capitals above, as the Unicode simple lower-case mapping gives it. */
  function GreekToLower(c: char): (r: char)
    requires IsGreekCapital(c)
    ensures r != c && !IsCapital(r)
  {
    if c == '\U{37F}' then '\U{3F3}'
    else if c == '\U{386}' then '\U{3AC}'
    else if '\U{388}' <= c <= '\U{38A}' then (c as int + 37) as char
    else if c == '\U{38C}' then '\U{3CC}'
    else if '\U{38E}' <= c <= '\U{38F}' then (c as int + 63) as char
    else if '\U{391}' <= c <= '\U{3AB}' then (c as int + 32) as char
    else if c == '\U{3CF}' then '\U{3D7}'
    else if c == '\U{3F4}' then '\U{3B8}'
    else if c == '\U{3F9}' then '\U{3F2}'
    else if '\U{3FD}' <= c <= '\U{3FF}' then (c as int - 130) as char
    else (c as int + 1) as char
  }

  /** Char.ToLowerInvariant on the capitals above; every other character is kept. */
  function ToLowerChar(c: char): (r: char)
    ensures IsCapital(c) ==> r != c
    ensures !IsCapital(c) ==> r == c
    ensures !IsCapital(r)
  {
    if IsGreekCapital(c) then GreekToLower(c)
    else if '\U{400}' <= c <= '\U{40F}' then (c as int + 80) as char
    else if IsCapital(c) then (c as int + 32) as char
    else c
  }

  /** String.ToLowerInvariant, character by character: no capital is left and nothing else changes. */
  function ToLowerInvariant(s: string): (r: string)
    ensures |r| == |s|
    ensures forall i :: 0 <= i < |s| ==> !IsCapital(r[i])
    ensures forall i :: 0 <= i < |s| && !IsCapital(s[i]) ==> r[i] == s[i]
  {
    seq(|s|, i requires 0 <= i < |s| => ToLowerChar(s[i]))
  }

  lemma ToLowerIdempotent(s: string)
    ensures ToLowerInvariant(ToLowerInvariant(s)) == ToLowerInvariant(s)
  {
  }
}
