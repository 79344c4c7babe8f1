/**
  The few operations on Python `str` that the author scan relies on: `lower()`,
  the substring test `sub in s`, `strip(chars)`, the argument-less `strip()` and
  `split()`, and `sep.join(items)`.  Strings are sequences of code points.
  Lower-casing is modelled for ASCII letters only.
*/
module PyStr {

  /** The characters for which Python's `str.isspace()` holds; `split()` and
      `strip()` without an argument treat exactly these as whitespace. */
  const Whitespace: set<char> := {
    '\t', '\n', '\U{000B}', '\U{000C}', '\r',
    '\U{001C}', '\U{001D}', '\U{001E}', '\U{001F}', ' ',
    '\U{0085}', '\U{00A0}', '\U{1680}',
    '\U{2000}', '\U{2001}', '\U{2002}', '\U{2003}', '\U{2004}', '\U{2005}',
    '\U{2006}', '\U{2007}', '\U{2008}', '\U{2009}', '\U{200A}',
    '\U{2028}', '\U{2029}', '\U{202F}', '\U{205F}', '\U{3000}'
  }

  predicate IsUpper(c: char) {
    'A' <= c <= 'Z'
  }

  /** ASCII lower-casing of one character; every other character is kept. */
  function LowerChar(c: char): (r: char)
    ensures !IsUpper(r)
    ensures !IsUpper(c) ==> r == c
    ensures IsUpper(c) ==> r as int - c as int == 'a' as int - 'A' as int
  {
    if IsUpper(c) then (c as int - 'A' as int + 'a' as int) as char else c
  }

  /** `s.lower()` */
  function Lower(s: string): (r: string)
  {
    seq(|s|, i requires 0 <= i < |s| => LowerChar(s[i]))
  }

  lemma LowerIdempotent(s: string)
    ensures Lower(Lower(s)) == Lower(s)
  {
  }

  lemma LowerAppend(a: string, b: string)
    ensures Lower(a + b) == Lower(a) + Lower(b)
  {
    assert forall i :: 0 <= i < |a + b| ==> Lower(a + b)[i] == (Lower(a) + Lower(b))[i];
  }

  /** `sub` occurs in `s` starting at index `i`. */
  predicate OccursAt(s: string, sub: string, i: int) {
    0 <= i <= |s| - |sub| && s[i..i + |sub|] == sub
  }

  /** Python's `sub in s`: an unanchored substring test, with no regard to word boundaries. */
  predicate Contains(s: string, sub: string) {
    exists i | 0 <= i <= |s| - |sub| :: OccursAt(s, sub, i)
  }

  /** Text added on either side of a string never hides an occurrence in it. */
  lemma ContainsWithin(a: string, s: string, b: string, sub: string)
    requires Contains(s, sub)
    ensures Contains(a + s + b, sub)
  {
    var i :| 0 <= i <= |s| - |sub| && OccursAt(s, sub, i);
    assert (a + s + b)[|a| + i..|a| + i + |sub|] == s[i..i + |sub|];
    assert OccursAt(a + s + b, sub, |a| + i);
  }

  /** A string cannot contain a pattern that uses a character it lacks. */
  lemma AbsentChar(s: string, sub: string, c: char)
    requires c in sub && c !in s
    ensures !Contains(s, sub)
  {
    if i :| 0 <= i <= |s| - |sub| && OccursAt(s, sub, i) {
      assert false;
    }
  }

  /** `x` is never directly followed by `y` in `s`. */
  predicate NoPair(s: string, x: char, y: char) {
    forall k :: 0 <= k < |s| - 1 && s[k] == x ==> s[k + 1] != y
  }

  /** Two strings without the pair give none when joined, unless the pair
      straddles the join. */
  lemma NoPairAppend(a: string, b: string, x: char, y: char)
    requires NoPair(a, x, y) && NoPair(b, x, y)
    requires a == [] || b == [] || a[|a| - 1] != x || b[0] != y
    ensures NoPair(a + b, x, y)
  {
    forall k | 0 <= k < |a + b| - 1 && (a + b)[k] == x
      ensures (a + b)[k + 1] != y
    {
      if k + 1 < |a| {
        assert (a + b)[k] == a[k] && (a + b)[k + 1] == a[k + 1];
      } else if k + 1 == |a| {
        assert (a + b)[k] == a[|a| - 1] && (a + b)[k + 1] == b[0];
      } else {
        assert (a + b)[k] == b[k - |a|] && (a + b)[k + 1] == b[k - |a| + 1];
      }
    }
  }

  /** A string cannot contain a pattern two of whose adjacent characters are
      never adjacent in it. */
  lemma AbsentPair(s: string, sub: string, i: nat)
    requires i + 1 < |sub|
    requires NoPair(s, sub[i], sub[i + 1])
    ensures !Contains(s, sub)
  {
    forall j | 0 <= j <= |s| - |sub|
      ensures !OccursAt(s, sub, j)
    {
      var w := s[j..j + |sub|];
      assert w[i] == s[j + i] && w[i + 1] == s[j + i + 1];
      assert w[i] != sub[i] || w[i + 1] != sub[i + 1];
    }
  }

  /** The length of the longest prefix of `s` whose characters all are in `cs`
      (when `inSet`) or all are outside `cs` (when `!inSet`). */
  function Span(s: string, cs: set<char>, inSet: bool): (n: nat)
    ensures n <= |s|
    ensures forall k :: 0 <= k < n ==> (s[k] in cs) == inSet
    ensures n < |s| ==> (s[n] in cs) != inSet
    decreases |s|
  {
    if s == [] || (s[0] in cs) != inSet then 0 else 1 + Span(s[1..], cs, inSet)
  }

  /** The length of the longest suffix of `s` whose characters all are in `cs`. */
  function TrailingSpan(s: string, cs: set<char>): (n: nat)
    ensures n <= |s|
    ensures forall k :: |s| - n <= k < |s| ==> s[k] in cs
    ensures n < |s| ==> s[|s| - 1 - n] !in cs
    decreases |s|
  {
    if s == [] || s[|s| - 1] !in cs then 0 else 1 + TrailingSpan(s[..|s| - 1], cs)
  }

  /** `r` is the slice of `s` at `i` once characters of `cs` alone are cut from both ends. */
  ghost predicate IsTrimOf(s: string, cs: set<char>, i: int, r: string) {
    0 <= i <= |s| - |r| && s[i..i + |r|] == r &&
    (forall k :: 0 <= k < i ==> s[k] in cs) &&
    (forall k :: i + |r| <= k < |s| ==> s[k] in cs)
  }

  /** `s.strip(chars)` with `cs` the set of `chars`; `Strip(s, Whitespace)` is `s.strip()`. */
  function Strip(s: string, cs: set<char>): (r: string)
    ensures IsTrimOf(s, cs, Span(s, cs, true), r)
    ensures r == [] || (r[0] !in cs && r[|r| - 1] !in cs)
  {
    var t := s[Span(s, cs, true)..];
    t[..|t| - TrailingSpan(t, cs)]
  }

  /** Stripping keeps every character that is not in `cs`. */
  lemma StripKeeps(s: string, cs: set<char>, c: char)
    requires c in s && c !in cs
    ensures c in Strip(s, cs)
  {
    var r := Strip(s, cs);
    var i := Span(s, cs, true);
    var k :| 0 <= k < |s| && s[k] == c;
    assert i <= k < i + |r|;
    assert r[k - i] == s[k];
  }

  /** Stripping is determined by its two ends: any slice of `s` obtained by
      cutting only characters of `cs`, and which neither begins nor ends with
      one, is `Strip(s, cs)`. */
  lemma StripUnique(s: string, cs: set<char>, i: int, r: string)
    requires IsTrimOf(s, cs, i, r)
    requires r == [] || (r[0] !in cs && r[|r| - 1] !in cs)
    ensures Strip(s, cs) == r
  {
    var r' := Strip(s, cs);
    var i' := Span(s, cs, true);
    if r != [] && r' != [] {
      // both slices start at the first, and end at the last, character outside cs
      assert s[i] == r[0] && s[i'] == r'[0];
      assert i == i';
      assert s[i + |r| - 1] == r[|r| - 1] && s[i' + |r'| - 1] == r'[|r'| - 1];
      assert |r| == |r'|;
    }
  }

  /** Every character of `s` not in `cs`, in order. */
  function Without(s: string, cs: set<char>): string
    decreases |s|
  {
    if s == [] then [] else (if s[0] in cs then [] else [s[0]]) + Without(s[1..], cs)
  }

  lemma {:induction false} WithoutKeeps(s: string, cs: set<char>, c: char)
    requires c in s && c !in cs
    ensures c in Without(s, cs)
    decreases |s|
  {
    if s[0] != c {
      WithoutKeeps(s[1..], cs, c);
    }
  }

  lemma {:induction false} WithoutAppend(a: string, b: string, cs: set<char>)
    ensures Without(a + b, cs) == Without(a, cs) + Without(b, cs)
    decreases |a|
  {
    if a == [] {
      assert a + b == b;
    } else {
      assert (a + b)[1..] == a[1..] + b;
      WithoutAppend(a[1..], b, cs);
    }
  }

  lemma {:induction false} WithoutAll(s: string, cs: set<char>)
    requires forall k :: 0 <= k < |s| ==> s[k] in cs
    ensures Without(s, cs) == []
    decreases |s|
  {
    if s != [] {
      WithoutAll(s[1..], cs);
    }
  }

  lemma {:induction false} WithoutNone(s: string, cs: set<char>)
    requires forall k :: 0 <= k < |s| ==> s[k] !in cs
    ensures Without(s, cs) == s
    decreases |s|
  {
    if s != [] {
      WithoutNone(s[1..], cs);
      assert s == [s[0]] + s[1..];
    }
  }

  /** The concatenation of all the strings of `ws`, in order. */
  function Concat(ws: seq<string>): string
  {
    if ws == [] then [] else ws[0] + Concat(ws[1..])
  }

  lemma {:induction false} ConcatMember(ws: seq<string>, c: char)
    requires c in Concat(ws)
    ensures exists k :: 0 <= k < |ws| && c in ws[k]
  {
    if c !in ws[0] {
      ConcatMember(ws[1..], c);
      var k :| 0 <= k < |ws[1..]| && c in ws[1..][k];
      assert c in ws[k + 1];
    }
  }

  /** The maximal runs of characters outside `cs`, in order. */
  function Fields(s: string, cs: set<char>): seq<string>
    decreases |s|
  {
    var a := Span(s, cs, true);
    if a == |s| then []
    else
      var t := s[a..];
      var n := Span(t, cs, false);
      [t[..n]] + Fields(t[n..], cs)
  }

  /** `s.split()`: the maximal runs of non-whitespace characters, in order. */
  function Split(s: string): seq<string> {
    Fields(s, Whitespace)
  }

  /** A non-empty run of characters outside `cs`. */
  predicate IsToken(w: string, cs: set<char>) {
    w != [] && forall k :: 0 <= k < |w| ==> w[k] !in cs
  }

  /** Every field is a non-empty run of characters outside `cs`. */
  lemma {:induction false} FieldsTokens(s: string, cs: set<char>)
    ensures forall k :: 0 <= k < |Fields(s, cs)| ==> IsToken(Fields(s, cs)[k], cs)
    decreases |s|
  {
    var a := Span(s, cs, true);
    if a < |s| {
      var n := Span(s[a..], cs, false);
      FirstField(s, cs, a, n);
      FieldsUnfold(s, cs, a, n);
      var first, rest := s[a..a + n], Fields(s[a + n..], cs);
      assert IsToken(first, cs);
      FieldsTokens(s[a + n..], cs);
      TokensCons(first, rest, cs);
    }
  }

  /** A token followed by tokens is a sequence of tokens. */
  lemma TokensCons(first: string, rest: seq<string>, cs: set<char>)
    requires IsToken(first, cs)
    requires forall k :: 0 <= k < |rest| ==> IsToken(rest[k], cs)
    ensures forall k :: 0 <= k < |[first] + rest| ==> IsToken(([first] + rest)[k], cs)
  {
    forall k | 0 <= k < |[first] + rest|
      ensures IsToken(([first] + rest)[k], cs)
    {
      if k > 0 {
        assert ([first] + rest)[k] == rest[k - 1];
      }
    }
  }

  /** Together the fields hold exactly the characters of `s` outside `cs`, in order. */
  lemma {:induction false} FieldsConcat(s: string, cs: set<char>)
    ensures Concat(Fields(s, cs)) == Without(s, cs)
    decreases |s|
  {
    var a := Span(s, cs, true);
    if a == |s| {
      WithoutAll(s, cs);
    } else {
      var n := Span(s[a..], cs, false);
      FirstField(s, cs, a, n);
      FieldsUnfold(s, cs, a, n);
      assert Concat(Fields(s, cs)) == s[a..a + n] + Concat(Fields(s[a + n..], cs)) by {
        var fs := Fields(s, cs);
        assert fs[0] == s[a..a + n] && fs[1..] == Fields(s[a + n..], cs);
      }
      WithoutRun(s, cs, a, n);
      FieldsConcat(s[a + n..], cs);
    }
  }

  /** The first field of a string that has one: the run of characters outside
      `cs` after the leading run of characters in `cs`. */
  lemma FirstField(s: string, cs: set<char>, a: nat, n: nat)
    requires a == Span(s, cs, true) < |s|
    requires n == Span(s[a..], cs, false)
    ensures 0 < n && a + n <= |s|
    ensures forall k :: a <= k < a + n ==> s[k] !in cs
  {
    var t := s[a..];
    assert t[0] == s[a];
    forall k | a <= k < a + n
      ensures s[k] !in cs
    {
      assert t[k - a] == s[k];
    }
  }

  /** Dropping the characters of `cs` from a string that starts with a run of
      them followed by a run of others keeps exactly the second run. */
  lemma {:induction false} WithoutRun(s: string, cs: set<char>, a: nat, n: nat)
    requires a + n <= |s|
    requires forall k :: 0 <= k < a ==> s[k] in cs
    requires forall k :: a <= k < a + n ==> s[k] !in cs
    ensures Without(s, cs) == s[a..a + n] + Without(s[a + n..], cs)
  {
    var blanks, run, rest := s[..a], s[a..a + n], s[a + n..];
    assert s == blanks + run + rest;
    assert Without(blanks, cs) == [] by {
      WithoutAll(blanks, cs);
    }
    assert Without(run, cs) == run by {
      WithoutNone(run, cs);
    }
    calc {
      Without(s, cs);
    ==  { WithoutAppend(blanks + run, rest, cs); }
      Without(blanks + run, cs) + Without(rest, cs);
    ==  { WithoutAppend(blanks, run, cs); }
      Without(blanks, cs) + Without(run, cs) + Without(rest, cs);
    ==  { assert [] + run == run; }
      run + Without(rest, cs);
    }
  }

  /** A character outside `cs` always lands in some field. */
  lemma FieldsKeep(s: string, cs: set<char>, c: char)
    requires c in s && c !in cs
    ensures exists k :: 0 <= k < |Fields(s, cs)| && c in Fields(s, cs)[k]
  {
    FieldsConcat(s, cs);
    WithoutKeeps(s, cs, c);
    ConcatMember(Fields(s, cs), c);
  }

  /** A field only holds characters of `s`. */
  lemma FieldsFrom(s: string, cs: set<char>, k: nat, c: char)
    requires k < |Fields(s, cs)| && c in Fields(s, cs)[k]
    ensures c in s
  {
    FieldsConcat(s, cs);
    ConcatHolds(Fields(s, cs), k, c);
    WithoutFrom(s, cs, c);
  }

  lemma {:induction false} ConcatHolds(ws: seq<string>, k: nat, c: char)
    requires k < |ws| && c in ws[k]
    ensures c in Concat(ws)
    decreases k
  {
    if k > 0 {
      ConcatHolds(ws[1..], k - 1, c);
    }
  }

  lemma {:induction false} WithoutFrom(s: string, cs: set<char>, c: char)
    requires c in Without(s, cs)
    ensures c in s
    decreases |s|
  {
    if s[0] != c {
      WithoutFrom(s[1..], cs, c);
    }
  }

  /** Leading separators produce no field. */
  lemma FieldsSkipBlank(b: string, s: string, cs: set<char>)
    requires forall k :: 0 <= k < |b| ==> b[k] in cs
    ensures Fields(b + s, cs) == Fields(s, cs)
  {
    var a := Span(b + s, cs, true);
    var a' := Span(s, cs, true);
    SpanPast(b, s, cs);
    assert a == |b| + a';
    assert (b + s)[a..] == s[a'..];
  }

  /** A run of characters of `cs` at the front extends the span by its length. */
  lemma {:induction false} SpanPast(b: string, s: string, cs: set<char>)
    requires forall k :: 0 <= k < |b| ==> b[k] in cs
    ensures Span(b + s, cs, true) == |b| + Span(s, cs, true)
    decreases |b|
  {
    if b != [] {
      assert (b + s)[1..] == b[1..] + s;
      SpanPast(b[1..], s, cs);
    } else {
      assert b + s == s;
    }
  }

  /** A word followed by a separator is the first field. */
  lemma FieldsWord(w: string, sep: char, s: string, cs: set<char>)
    requires w != [] && forall k :: 0 <= k < |w| ==> w[k] !in cs
    requires sep in cs
    ensures Fields(w + [sep] + s, cs) == [w] + Fields(s, cs)
  {
    var x := w + [sep] + s;
    assert Span(x, cs, true) == 0;
    var n := Span(x, cs, false);
    assert x[|w|] == sep;
    assert n == |w|;
    assert x[..n] == w;
    assert x[n..] == [sep] + s;
    FieldsSkipBlank([sep], s, cs);
  }

  /** A single token splits into itself. */
  lemma FieldsOfToken(w: string, cs: set<char>)
    requires IsToken(w, cs)
    ensures Fields(w, cs) == [w]
  {
    assert Span(w, cs, true) == 0;
    var n := Span(w, cs, false);
    assert n == |w|;
    assert w[0..] == w && w[..n] == w && w[n..] == [];
  }

  /** Adding characters after a prefix that already ends the span leaves the
      span unchanged; so does adding text whose first character ends it. */
  lemma {:induction false} SpanExtend(a: string, c: string, cs: set<char>, inSet: bool)
    requires Span(a, cs, inSet) < |a| || (c != [] && (c[0] in cs) != inSet)
    ensures Span(a + c, cs, inSet) == Span(a, cs, inSet)
    decreases |a|
  {
    if a == [] {
      assert a + c == c;
    } else if (a[0] in cs) == inSet {
      assert (a + c)[1..] == a[1..] + c;
      SpanExtend(a[1..], c, cs, inSet);
    }
  }

  /** A separator cuts the text into two parts that split on their own: no
      word runs across it. */
  lemma FieldsSplitAt(a: string, sep: char, b: string, cs: set<char>)
    requires sep in cs
    ensures Fields(a + [sep] + b, cs) == Fields(a, cs) + Fields(b, cs)
  {
    assert a + [sep] + b == a + ([sep] + b);
    FieldsCut(a, [sep] + b, cs);
    FieldsSkipBlank([sep], b, cs);
  }

  /** Text that starts with a separator splits apart from whatever precedes it. */
  lemma {:induction false} FieldsCut(a: string, c: string, cs: set<char>)
    requires c != [] && c[0] in cs
    ensures Fields(a + c, cs) == Fields(a, cs) + Fields(c, cs)
    decreases |a|
  {
    var start := Span(a, cs, true);
    if start == |a| {
      BlankBeforeCut(a, c, cs);
    } else {
      var n := Span(a[start..], cs, false);
      FieldsUnfold(a, cs, start, n);
      FirstFieldBeforeCut(a, c, cs, start, n);
      FieldsCut(a[start + n..], c, cs);
      ConsAppend(Fields(a + c, cs), Fields(a, cs), Fields(c, cs), Fields(a[start + n..], cs), a[start..start + n]);
    }
  }

  /** Bookkeeping for `FieldsCut`: a first word in front of a split that
      distributes gives a split that distributes. */
  lemma ConsAppend(whole: seq<string>, left: seq<string>, right: seq<string>, rest: seq<string>, first: string)
    requires left == [first] + rest
    requires whole == [first] + (rest + right)
    ensures whole == left + right
  {
  }

  /** The fields of a string with a field in it: the first field, then the
      fields of what follows it. */
  lemma FieldsUnfold(s: string, cs: set<char>, a: nat, n: nat)
    requires a == Span(s, cs, true) < |s|
    requires n == Span(s[a..], cs, false)
    ensures a + n <= |s|
    ensures Fields(s, cs) == [s[a..a + n]] + Fields(s[a + n..], cs)
  {
    var t := s[a..];
    assert t[..n] == s[a..a + n];
    assert t[n..] == s[a + n..];
  }

  /** Separators alone in front of the cut add no word. */
  lemma BlankBeforeCut(a: string, c: string, cs: set<char>)
    requires Span(a, cs, true) == |a|
    ensures Fields(a + c, cs) == Fields(a, cs) + Fields(c, cs)
  {
    assert Fields(a, cs) == [];
    FieldsSkipBlank(a, c, cs);
  }

  /** The first field of `a` stays the first field when text starting with a
      separator follows. */
  lemma FirstFieldBeforeCut(a: string, c: string, cs: set<char>, start: nat, n: nat)
    requires c != [] && c[0] in cs
    requires start == Span(a, cs, true) < |a|
    requires n == Span(a[start..], cs, false)
    ensures start + n <= |a|
    ensures Fields(a + c, cs) == [a[start..start + n]] + Fields(a[start + n..] + c, cs)
  {
    SpansBeforeCut(a, c, cs, start, n);
    FieldsUnfold(a + c, cs, start, n);
    SlicesBeforeCut(a, c, start, n);
  }

  /** Text starting with a separator changes neither span of `a`'s first field. */
  lemma SpansBeforeCut(a: string, c: string, cs: set<char>, start: nat, n: nat)
    requires c != [] && c[0] in cs
    requires start == Span(a, cs, true) < |a|
    requires n == Span(a[start..], cs, false)
    ensures start < |a + c| && start == Span(a + c, cs, true)
    ensures n == Span((a + c)[start..], cs, false)
  {
    SpanExtend(a, c, cs, true);
    assert (a + c)[start..] == a[start..] + c;
    SpanExtend(a[start..], c, cs, false);
  }

  lemma SlicesBeforeCut(a: string, c: string, start: nat, n: nat)
    requires start + n <= |a|
    ensures (a + c)[start..start + n] == a[start..start + n]
    ensures (a + c)[start + n..] == a[start + n..] + c
  {
  }

  /** `sep.join(items)` */
  function Join(items: seq<string>, sep: string): (r: string)
    ensures items == [] ==> r == []
    ensures |items| == 1 ==> r == items[0]
  {
    if items == [] then []
    else if |items| == 1 then items[0]
    else items[0] + sep + Join(items[1..], sep)
  }
}
