/** The string primitives the interpreter relies on: .NET white space, `Trim`,
    `Split` on one character, ASCII case mapping, removal of one character, and
    the decimal rendering of a counter. Strings are sequences of characters. */
module Text {

  /** The characters .NET classifies as white space. `char.IsWhiteSpace` (used by
      `String.Trim()`) and the regular-expression class `\s` agree on this set:
      tab, line feed, vertical tab, form feed, carriage return, space, next line,
      and the Unicode space, line and paragraph separators. */
  predicate IsSpace(c: char) {
    || ('\t' <= c <= '\r')
    || c == ' '
    || c == '\U{0085}'
    || c == '\U{00A0}'
    || c == '\U{1680}'
    || ('\U{2000}' <= c <= '\U{200A}')
    || c == '\U{2028}'
    || c == '\U{2029}'
    || c == '\U{202F}'
    || c == '\U{205F}'
    || c == '\U{3000}'
  }

  /** `Regex.IsMatch(s, "\\s")`. */
  predicate HasSpace(s: string) {
    exists i :: 0 <= i < |s| && IsSpace(s[i])
  }

  /** Decimal digits as the model reads them (`\d` restricted to ASCII). */
  predicate IsDigit(c: char) {
    '0' <= c <= '9'
  }

  /** `Regex.IsMatch(s, "\\D")`: some character is not a digit. */
  predicate HasNonDigit(s: string) {
    exists i :: 0 <= i < |s| && !IsDigit(s[i])
  }

  predicate StartsWith(s: string, c: char) {
    |s| > 0 && s[0] == c
  }

  predicate EndsWith(s: string, c: char) {
    |s| > 0 && s[|s| - 1] == c
  }

  /** The index of the first character at or after `i` that is not white space,
      or `|s|` when there is none. */
  function SkipSpaces(s: string, i: nat): (r: nat)
    requires i <= |s|
    ensures i <= r <= |s|
    ensures r < |s| ==> !IsSpace(s[r])
    decreases |s| - i
  {
    if i < |s| && IsSpace(s[i]) then SkipSpaces(s, i + 1) else i
  }

  /** Everything `SkipSpaces` passes over is white space. */
  lemma {:induction false} SkipSpacesPassesSpace(s: string, i: nat)
    requires i <= |s|
    ensures forall k :: i <= k < SkipSpaces(s, i) ==> IsSpace(s[k])
    decreases |s| - i
  {
    if i < |s| && IsSpace(s[i]) {
      SkipSpacesPassesSpace(s, i + 1);
    }
  }

  /** The index just past the last character before `j` that is not white space,
      or 0 when there is none. */
  function SkipSpacesBack(s: string, j: nat): (r: nat)
    requires j <= |s|
    ensures r <= j
    ensures r > 0 ==> !IsSpace(s[r - 1])
    decreases j
  {
    if j > 0 && IsSpace(s[j - 1]) then SkipSpacesBack(s, j - 1) else j
  }

  /** Everything `SkipSpacesBack` passes over is white space. */
  lemma {:induction false} SkipSpacesBackPassesSpace(s: string, j: nat)
    requires j <= |s|
    ensures forall k :: SkipSpacesBack(s, j) <= k < j ==> IsSpace(s[k])
    decreases j
  {
    if j > 0 && IsSpace(s[j - 1]) {
      SkipSpacesBackPassesSpace(s, j - 1);
    }
  }

  /** Drops the leading white space. */
  function TrimStart(s: string): string {
    s[SkipSpaces(s, 0)..]
  }

  /** Drops the trailing white space. */
  function TrimEnd(s: string): string {
    s[..SkipSpacesBack(s, |s|)]
  }

  /** `String.Trim()`: removes white space at both ends. */
  function Trim(s: string): (r: string)
    ensures |r| <= |s|
  {
    TrimEnd(TrimStart(s))
  }

  /** Only white space is removed: every other character keeps its number of
      occurrences, and no character gains any. */
  lemma TrimKeepsContent(s: string)
    ensures multiset(Trim(s)) <= multiset(s)
    ensures forall c :: !IsSpace(c) ==> multiset(Trim(s))[c] == multiset(s)[c]
  {
    var a := SkipSpaces(s, 0);
    var t := s[a..];
    var b := SkipSpacesBack(t, |t|);
    SkipSpacesPassesSpace(s, 0);
    SkipSpacesBackPassesSpace(t, |t|);
    var u, r, w := s[..a], t[..b], t[b..];
    assert Trim(s) == r;
    assert s == u + (r + w) by {
      assert s == s[..a] + s[a..];
      assert t == t[..b] + t[b..];
    }
    PaddingKeepsContent(s, u, r, w);
  }

  /** White space around a text adds only white space to its characters. */
  lemma PaddingKeepsContent(s: string, u: string, m: string, w: string)
    requires s == u + (m + w)
    requires forall i :: 0 <= i < |u| ==> IsSpace(s[i])
    requires forall i :: |u| + |m| <= i < |s| ==> IsSpace(s[i])
    ensures multiset(m) <= multiset(s)
    ensures forall c :: !IsSpace(c) ==> multiset(m)[c] == multiset(s)[c]
  {
    assert forall i :: 0 <= i < |u| ==> u[i] == s[i];
    assert forall i :: 0 <= i < |w| ==> w[i] == s[|u| + |m| + i];
    AllSpaceNoContent(u);
    AllSpaceNoContent(w);
    assert multiset(s) == multiset(u) + multiset(m) + multiset(w);
  }

  /** A run of white space holds no other character. */
  lemma {:induction false} AllSpaceNoContent(w: string)
    requires forall i :: 0 <= i < |w| ==> IsSpace(w[i])
    ensures forall c :: !IsSpace(c) ==> multiset(w)[c] == 0
    decreases |w|
  {
    if |w| > 0 {
      AllSpaceNoContent(w[1..]);
      assert w == [w[0]] + w[1..];
    }
  }

  /** The pieces of `s` from index `start` on, with the scan for the separator
      at index `i`. */
  function SplitFrom(s: string, sep: char, start: nat, i: nat): (r: seq<string>)
    requires start <= i <= |s|
    ensures |r| >= 1
    decreases |s| - i
  {
    if i == |s| then [s[start..]]
    else if s[i] == sep then [s[start..i]] + SplitFrom(s, sep, i + 1, i + 1)
    else SplitFrom(s, sep, start, i + 1)
  }

  /** `s.Split(sep)`: the pieces between separators, empty pieces included. */
  function Split(s: string, sep: char): (r: seq<string>)
    ensures |r| >= 1
  {
    SplitFrom(s, sep, 0, 0)
  }

  /** The scan passes over characters other than the separator without cutting. */
  lemma {:induction false} SplitFromScan(s: string, sep: char, start: nat, i: nat, j: nat)
    requires start <= i <= j <= |s|
    requires forall k :: i <= k < j ==> s[k] != sep
    ensures SplitFrom(s, sep, start, i) == SplitFrom(s, sep, start, j)
    decreases j - i
  {
    if i < j {
      SplitFromScan(s, sep, start, i + 1, j);
    }
  }

  /** Splitting from a later start is splitting the suffix there. */
  lemma {:induction false} SplitFromSuffix(s: string, sep: char, k: nat, start: nat, i: nat)
    requires k <= start <= i <= |s|
    ensures SplitFrom(s, sep, start, i) == SplitFrom(s[k..], sep, start - k, i - k)
    decreases |s| - i
  {
    var u := s[k..];
    if i == |s| {
      assert s[start..] == u[start - k..];
    } else {
      assert s[i] == u[i - k];
      if s[i] == sep {
        SplitFromSuffix(s, sep, k, i + 1, i + 1);
        assert s[start..i] == u[start - k..i - k];
      } else {
        SplitFromSuffix(s, sep, k, start, i + 1);
      }
    }
  }

  /** No piece contains the separator. */
  lemma SplitPiecesFree(s: string, sep: char)
    ensures forall i :: 0 <= i < |Split(s, sep)| ==> sep !in Split(s, sep)[i]
  {
    SplitFromPiecesFree(s, sep, 0, 0);
  }

  lemma {:induction false} SplitFromPiecesFree(s: string, sep: char, start: nat, i: nat)
    requires start <= i <= |s|
    requires forall k :: start <= k < i ==> s[k] != sep
    ensures forall p :: 0 <= p < |SplitFrom(s, sep, start, i)| ==> sep !in SplitFrom(s, sep, start, i)[p]
    decreases |s| - i
  {
    var r := SplitFrom(s, sep, start, i);
    if i == |s| {
      assert forall k :: 0 <= k < |s[start..]| ==> s[start..][k] == s[start + k];
    } else if s[i] == sep {
      SplitFromPiecesFree(s, sep, i + 1, i + 1);
      assert forall k :: 0 <= k < |s[start..i]| ==> s[start..i][k] == s[start + k];
      assert forall p :: 1 <= p < |r| ==> r[p] == SplitFrom(s, sep, i + 1, i + 1)[p - 1];
    } else {
      SplitFromPiecesFree(s, sep, start, i + 1);
    }
  }

  /** There is one more piece than there are separators. */
  lemma SplitCount(s: string, sep: char)
    ensures |Split(s, sep)| == multiset(s)[sep] + 1
  {
    SplitFromCount(s, sep, 0, 0);
    assert s[0..] == s;
  }

  lemma {:induction false} SplitFromCount(s: string, sep: char, start: nat, i: nat)
    requires start <= i <= |s|
    ensures |SplitFrom(s, sep, start, i)| == multiset(s[i..])[sep] + 1
    decreases |s| - i
  {
    if i < |s| {
      assert s[i..] == [s[i]] + s[i + 1..];
      if s[i] == sep {
        SplitFromCount(s, sep, i + 1, i + 1);
      } else {
        SplitFromCount(s, sep, start, i + 1);
      }
    }
  }

  /** The inverse of `Split`: the pieces glued back with the separator. */
  function Join(parts: seq<string>, sep: char): string
    requires |parts| >= 1
    decreases |parts|
  {
    if |parts| == 1 then parts[0] else parts[0] + [sep] + Join(parts[1..], sep)
  }

  /** Splitting loses nothing: joining the pieces gives the text back. */
  lemma SplitThenJoin(s: string, sep: char)
    ensures Join(Split(s, sep), sep) == s
  {
    SplitFromThenJoin(s, sep, 0, 0);
    assert s[0..] == s;
  }

  lemma {:induction false} SplitFromThenJoin(s: string, sep: char, start: nat, i: nat)
    requires start <= i <= |s|
    ensures Join(SplitFrom(s, sep, start, i), sep) == s[start..]
    decreases |s| - i
  {
    if i < |s| {
      if s[i] == sep {
        var rest := SplitFrom(s, sep, i + 1, i + 1);
        var parts := SplitFrom(s, sep, start, i);
        SplitFromThenJoin(s, sep, i + 1, i + 1);
        assert parts == [s[start..i]] + rest;
        assert parts[1..] == rest;
        assert s[start..] == s[start..i] + ([sep] + s[i + 1..]) by {
          assert s[i..] == [sep] + s[i + 1..];
          assert s[start..] == s[start..i] + s[i..];
        }
      } else {
        SplitFromThenJoin(s, sep, start, i + 1);
      }
    }
  }

  /** A piece without the separator splits into itself. */
  lemma SplitOfPiece(p: string, sep: char)
    requires sep !in p
    ensures Split(p, sep) == [p]
  {
    SplitFromScan(p, sep, 0, 0, |p|);
    assert p[0..] == p;
  }

  /** A piece without the separator, followed by the separator, splits off as one piece. */
  lemma SplitAfterPiece(p: string, t: string, sep: char)
    requires sep !in p
    ensures Split(p + [sep] + t, sep) == [p] + Split(t, sep)
  {
    var u := p + [sep] + t;
    SplitFromScan(u, sep, 0, 0, |p|);
    assert u[|p|] == sep;
    assert u[0..|p|] == p;
    SplitFromSuffix(u, sep, |p| + 1, |p| + 1, |p| + 1);
    assert u[|p| + 1..] == t;
  }

  /** Joining separator-free pieces and splitting again gives the pieces back. */
  lemma {:induction false} JoinThenSplit(parts: seq<string>, sep: char)
    requires |parts| >= 1
    requires forall i :: 0 <= i < |parts| ==> sep !in parts[i]
    ensures Split(Join(parts, sep), sep) == parts
    decreases |parts|
  {
    if |parts| == 1 {
      SplitOfPiece(parts[0], sep);
    } else {
      JoinThenSplit(parts[1..], sep);
      SplitAfterPiece(parts[0], Join(parts[1..], sep), sep);
      assert [parts[0]] + parts[1..] == parts;
    }
  }

  predicate IsLower(c: char) {
    'a' <= c <= 'z'
  }

  predicate IsUpper(c: char) {
    'A' <= c <= 'Z'
  }

  function UpperChar(c: char): char {
    if IsLower(c) then (c as int - 'a' as int + 'A' as int) as char else c
  }

  function LowerChar(c: char): char {
    if IsUpper(c) then (c as int - 'A' as int + 'a' as int) as char else c
  }

  /** `String.ToUpper()` on the ASCII letters. */
  function Upper(s: string): (r: string)
    ensures |r| == |s|
    ensures forall i :: 0 <= i < |r| ==> !IsLower(r[i])
    ensures forall i :: 0 <= i < |s| && !IsLower(s[i]) ==> r[i] == s[i]
  {
    seq(|s|, i requires 0 <= i < |s| => UpperChar(s[i]))
  }

  /** `String.ToLower()` on the ASCII letters. */
  function Lower(s: string): (r: string)
    ensures |r| == |s|
    ensures forall i :: 0 <= i < |r| ==> !IsUpper(r[i])
    ensures forall i :: 0 <= i < |s| && !IsUpper(s[i]) ==> r[i] == s[i]
  {
    seq(|s|, i requires 0 <= i < |s| => LowerChar(s[i]))
  }

  /** Lower-casing first does not change what upper-casing gives: a name keeps
      its identity through the lower-casing of a whole source line. */
  lemma UpperOfLower(s: string)
    ensures Upper(Lower(s)) == Upper(s)
  {
    forall i | 0 <= i < |s|
      ensures Upper(Lower(s))[i] == Upper(s)[i]
    {
      assert UpperChar(LowerChar(s[i])) == UpperChar(s[i]);
    }
  }

  lemma UpperIdempotent(s: string)
    ensures Upper(Upper(s)) == Upper(s)
  {
  }

  /** A string holding a lower-case ASCII letter is never the upper-case form of anything. */
  lemma NotAnUpperForm(s: string, name: string, i: int)
    requires 0 <= i < |s| && IsLower(s[i])
    ensures Upper(name) != s
  {
  }

  /** `s.Replace(c, "")`: every occurrence of `c` removed, the rest kept in order. */
  function Remove(s: string, c: char): (r: string)
    ensures c !in r
    ensures multiset(r) == multiset(s)[c := 0]
    decreases |s|
  {
    if |s| == 0 then
      ""
    else
      assert s == [s[0]] + s[1..];
      if s[0] == c then Remove(s[1..], c) else [s[0]] + Remove(s[1..], c)
  }

  /** Removal works piecewise, so the order of the kept characters is the original one. */
  lemma {:induction false} RemoveAppend(a: string, b: string, c: char)
    ensures Remove(a + b, c) == Remove(a, c) + Remove(b, c)
    decreases |a|
  {
    if |a| > 0 {
      RemoveAppend(a[1..], b, c);
      assert (a + b)[1..] == a[1..] + b;
    } else {
      assert a + b == b;
    }
  }

  /** Text without the character is left exactly as it is. */
  lemma {:induction false} RemoveAbsent(s: string, c: char)
    requires c !in s
    ensures Remove(s, c) == s
    decreases |s|
  {
    if |s| > 0 {
      RemoveAbsent(s[1..], c);
      assert [s[0]] + s[1..] == s;
    }
  }

  /** The decimal digit character of `d`. */
  function DigitChar(d: nat): char
    requires d < 10
  {
    ('0' as int + d) as char
  }

  /** The decimal rendering of a counter, as `int.ToString()` gives it. */
  function Decimal(n: nat): (r: string)
    ensures |r| >= 1
    ensures forall i :: 0 <= i < |r| ==> IsDigit(r[i])
    decreases n
  {
    if n < 10 then [DigitChar(n)] else Decimal(n / 10) + [DigitChar(n % 10)]
  }
}
