/** The PHP library functions that class Curl relies on, over strings as
    sequences of characters: empty(), trim(), ucwords(), mb_substr() from
    offset 0, mb_split() with a literal pattern, and array_filter() on a
    string-valued array. */
module Php {

  /** A PHP value that may be null. */
  datatype Option<+T> = None | Some(value: T) {
    function GetOr(default: T): T {
      match this
      case Some(v) => v
      case None => default
    }
  }

  /** PHP's empty() on a ?string: null, "" and "0" all count as "no value". */
  predicate Empty(v: Option<string>) {
    v.None? || v.value == "" || v.value == "0"
  }

  // ---------------------------------------------------------------------------
  // trim()

  /** The characters trim() strips by default: " \t\n\r\0\x0B". */
  predicate IsTrimChar(c: char) {
    c == ' ' || c == '\t' || c == '\n' || c == '\r' || c == '\0' || c == 11 as char
  }

  predicate AllTrimChars(s: string) {
    forall i :: 0 <= i < |s| ==> IsTrimChar(s[i])
  }

  /** ltrim(): drops the leading run of trim characters. */
  function TrimStart(s: string): (r: string)
    ensures |r| <= |s| && r == s[|s| - |r|..]
    ensures AllTrimChars(s[..|s| - |r|])
    ensures r == [] || !IsTrimChar(r[0])
  {
    if s != [] && IsTrimChar(s[0]) then TrimStart(s[1..]) else s
  }

  /** rtrim(): drops the trailing run of trim characters. */
  function TrimEnd(s: string): (r: string)
    ensures |r| <= |s| && r == s[..|r|]
    ensures AllTrimChars(s[|r|..])
    ensures r == [] || !IsTrimChar(r[|r| - 1])
  {
    if s != [] && IsTrimChar(s[|s| - 1]) then TrimEnd(s[..|s| - 1]) else s
  }

  /** trim(): ltrim() then rtrim(). The result is no longer than `s` and
      neither starts nor ends with a trim character. */
  function Trim(s: string): (r: string)
    ensures |r| <= |s|
    ensures r == [] || (!IsTrimChar(r[0]) && !IsTrimChar(r[|r| - 1]))
  {
    TrimEnd(TrimStart(s))
  }

  /** What trim() leaves is the infix of `s` between a leading and a trailing
      run of trim characters, and it neither starts nor ends with one. */
  lemma TrimShape(s: string)
    ensures var r := Trim(s);
            exists a :: 0 <= a <= |s| - |r| && AllTrimChars(s[..a])
                        && r == s[a..a + |r|] && AllTrimChars(s[a + |r|..])
    ensures var r := Trim(s);
            r == [] || (!IsTrimChar(r[0]) && !IsTrimChar(r[|r| - 1]))
  {
    var t := TrimStart(s);
    var r := TrimEnd(t);
    var a := |s| - |t|;
    assert t == s[a..];
    assert s[a..a + |r|] == r;
    assert s[a + |r|..] == t[|r|..];
    assert 0 <= a <= |s| - |r| && AllTrimChars(s[..a]) && r == s[a..a + |r|] && AllTrimChars(s[a + |r|..]);
  }

  lemma {:induction false} TrimStartSkips(a: string, r: string)
    requires AllTrimChars(a)
    requires r == [] || !IsTrimChar(r[0])
    ensures TrimStart(a + r) == r
  {
    if a != [] {
      assert (a + r)[1..] == a[1..] + r;
      TrimStartSkips(a[1..], r);
    }
  }

  lemma {:induction false} TrimEndSkips(r: string, b: string)
    requires AllTrimChars(b)
    requires r == [] || !IsTrimChar(r[|r| - 1])
    ensures TrimEnd(r + b) == r
  {
    if b != [] {
      assert (r + b)[..|r + b| - 1] == r + b[..|b| - 1];
      TrimEndSkips(r, b[..|b| - 1]);
    }
  }

  /** Whatever padding of trim characters surrounds a string that neither
      starts nor ends with one, trim() gives back exactly that string. */
  lemma TrimPadded(a: string, r: string, b: string)
    requires AllTrimChars(a) && AllTrimChars(b)
    requires r == [] || (!IsTrimChar(r[0]) && !IsTrimChar(r[|r| - 1]))
    ensures Trim(a + r + b) == r
  {
    if r == [] {
      assert a + r + b == a + b;
      assert AllTrimChars(a + b);
      TrimStartSkips(a + b, []);
      assert a + b + [] == a + b;
    } else {
      assert a + r + b == a + (r + b);
      TrimStartSkips(a, r + b);
      TrimEndSkips(r, b);
    }
  }

  /** trim() is idempotent. */
  lemma TrimIdempotent(s: string)
    ensures Trim(Trim(s)) == Trim(s)
  {
    var r := Trim(s);
    TrimShape(s);
    assert TrimStart(r) == r;
    assert TrimEnd(r) == r;
  }

  // ---------------------------------------------------------------------------
  // ucwords()

  predicate IsLower(c: char) {
    'a' <= c <= 'z'
  }

  /** toupper() on one character, ASCII only. */
  function Upper(c: char): (u: char)
    ensures IsLower(c) ==> u as int == c as int - 32 && 'A' <= u <= 'Z'
    ensures !IsLower(c) ==> u == c
    ensures !IsLower(u)
  {
    if IsLower(c) then (c as int - 32) as char else c
  }

  /** Whether position `i` of `s` starts a word: the first position, or one
      right after a delimiter. */
  predicate StartsWord(s: string, delimiter: char, i: int)
    requires 0 <= i < |s|
  {
    i == 0 || s[i - 1] == delimiter
  }

  /** The walk ucwords() makes over `s`; `atWordStart` says whether the
      character before `s` was a delimiter (or there was none). */
  function UcWordsFrom(s: string, delimiter: char, atWordStart: bool): (r: string)
    ensures |r| == |s|
    ensures forall i {:trigger r[i]} :: 0 <= i < |s| ==>
              r[i] == (if (if i == 0 then atWordStart else s[i - 1] == delimiter) then Upper(s[i]) else s[i])
  {
    if s == [] then []
    else [if atWordStart then Upper(s[0]) else s[0]] + UcWordsFrom(s[1..], delimiter, s[0] == delimiter)
  }

  /** ucwords($s, $delimiter) with a single delimiter character: the first
      character and every character right after the delimiter are
      upper-cased, and every other character is kept as it is. */
  function UcWords(s: string, delimiter: char): (r: string)
    ensures |r| == |s|
    ensures forall i {:trigger r[i]} :: 0 <= i < |s| ==>
              r[i] == (if StartsWord(s, delimiter, i) then Upper(s[i]) else s[i])
  {
    UcWordsFrom(s, delimiter, true)
  }

  /** ucwords() is idempotent when the delimiter is not a letter (as '-' is
      not). */
  lemma UcWordsIdempotent(s: string, delimiter: char)
    requires !IsLower(delimiter) && !('A' <= delimiter <= 'Z')
    ensures UcWords(UcWords(s, delimiter), delimiter) == UcWords(s, delimiter)
  {
    var r := UcWords(s, delimiter);
    var rr := UcWords(r, delimiter);
    forall i | 0 <= i < |s|
      ensures rr[i] == r[i]
    {
      if i > 0 {
        assert r[i - 1] == delimiter <==> s[i - 1] == delimiter;
      }
    }
  }

  /** Without the delimiter the string is one word: only its first
      character is upper-cased. */
  lemma UcWordsNoDelimiter(s: string, delimiter: char)
    requires delimiter !in s
    ensures UcWords(s, delimiter) == if s == [] then [] else [Upper(s[0])] + s[1..]
  {
    var r := UcWords(s, delimiter);
    if s != [] {
      forall i | 1 <= i < |s|
        ensures r[i] == s[i]
      {
        assert s[i - 1] in s;
      }
    }
  }

  /** Words separated by the delimiter are title-cased independently. */
  lemma UcWordsJoin(a: string, delimiter: char, b: string)
    requires !IsLower(delimiter)
    ensures UcWords(a + [delimiter] + b, delimiter) == UcWords(a, delimiter) + [delimiter] + UcWords(b, delimiter)
  {
    var s := a + [delimiter] + b;
    var r := UcWords(s, delimiter);
    var t := UcWords(a, delimiter) + [delimiter] + UcWords(b, delimiter);
    forall i | 0 <= i < |s|
      ensures r[i] == t[i]
    {
      if i < |a| {
        assert s[i] == a[i];
        if i > 0 { assert s[i - 1] == a[i - 1]; }
      } else if i > |a| {
        assert s[i] == b[i - |a| - 1];
        if i > |a| + 1 { assert s[i - 1] == b[i - |a| - 2]; }
      }
    }
  }

  // ---------------------------------------------------------------------------
  // mb_substr($s, 0, $n)

  /** mb_substr($s, 0, $n): the first `n` characters, or all of `s` when it
      is shorter. */
  function Prefix(s: string, n: nat): (r: string)
    ensures |r| == if |s| < n then |s| else n
    ensures r == s[..|r|]
  {
    if |s| <= n then s else s[..n]
  }

  // ---------------------------------------------------------------------------
  // mb_split() with a literal pattern

  /** Whether `pat` occurs in `s` starting at position `i`. */
  predicate OccursAt(s: string, pat: string, i: int) {
    0 <= i && i + |pat| <= |s| && s[i..i + |pat|] == pat
  }

  /** The leftmost position at or after `from` where `pat` occurs in `s`. */
  function FindFrom(s: string, pat: string, from: nat): (r: Option<nat>)
    requires from <= |s|
    ensures r.Some? ==> from <= r.value && OccursAt(s, pat, r.value)
    ensures forall i :: from <= i && (r.None? || i < r.value) ==> !OccursAt(s, pat, i)
    decreases |s| - from
  {
    if OccursAt(s, pat, from) then Some(from)
    else if from == |s| then None
    else FindFrom(s, pat, from + 1)
  }

  /** mb_split($pat, $s, 2): `s` cut at the leftmost occurrence of `pat`
      into the text before it and, when there is one, the text after it. */
  function SplitOnce(s: string, pat: string): (r: (string, Option<string>))
    requires pat != []
    ensures r.1.None? ==> r.0 == s && forall i :: !OccursAt(s, pat, i)
    ensures r.1.Some? ==> r.0 + pat + r.1.value == s
    ensures forall i :: 0 <= i < |r.0| ==> !OccursAt(s, pat, i)
    ensures forall i :: !OccursAt(r.0, pat, i)
  {
    match FindFrom(s, pat, 0)
    case None => (s, None)
    case Some(i) =>
      var head := s[..i];
      assert head + pat + s[i + |pat|..] == s;
      assert forall j :: OccursAt(head, pat, j) ==> OccursAt(s, pat, j) by {
        forall j | OccursAt(head, pat, j) ensures OccursAt(s, pat, j) {
          assert s[j..j + |pat|] == head[j..j + |pat|];
        }
      }
      (head, Some(s[i + |pat|..]))
  }

  /** The cut SplitOnce makes is the leftmost one: when `pat` does not occur
      in `a + pat + b` before position |a|, the cut is at |a| and everything
      after it, later occurrences of `pat` included, is the second part. */
  lemma SplitOnceAt(a: string, pat: string, b: string)
    requires pat != []
    requires forall i :: 0 <= i < |a| ==> !OccursAt(a + pat + b, pat, i)
    ensures SplitOnce(a + pat + b, pat) == (a, Some(b))
  {
    var s := a + pat + b;
    assert s[|a|..|a| + |pat|] == pat;
    assert OccursAt(s, pat, |a|);
    var r := SplitOnce(s, pat);
    assert |r.0| == |a|;
    assert r.0 == s[..|a|] == a;
    assert r.1.value == s[|a| + |pat|..] == b;
  }

  /** implode($sep, $parts): the reference that exploding is checked against. */
  function Join(parts: seq<string>, sep: string): string {
    if parts == [] then []
    else if |parts| == 1 then parts[0]
    else parts[0] + sep + Join(parts[1..], sep)
  }

  /** mb_split($pat, $s) with no limit: `s` cut at every occurrence of `pat`,
      leftmost first. */
  function Explode(s: string, pat: string): (parts: seq<string>)
    requires pat != []
    ensures |parts| >= 1
    ensures Join(parts, pat) == s
    ensures forall j, i :: 0 <= j < |parts| ==> !OccursAt(parts[j], pat, i)
    decreases |s|
  {
    var (head, rest) := SplitOnce(s, pat);
    if rest.None? then [head]
    else
      var tail := Explode(rest.value, pat);
      var parts := [head] + tail;
      assert parts[1..] == tail;
      parts
  }

  /** Exploding peels off the text before the leftmost occurrence. */
  lemma ExplodeAt(a: string, pat: string, b: string)
    requires pat != []
    requires forall i :: 0 <= i < |a| ==> !OccursAt(a + pat + b, pat, i)
    ensures Explode(a + pat + b, pat) == [a] + Explode(b, pat)
  {
    SplitOnceAt(a, pat, b);
  }

  /** A string in which `pat` does not occur is one piece. */
  lemma ExplodeWhole(s: string, pat: string)
    requires pat != [] && pat[0] !in s
    ensures Explode(s, pat) == [s]
  {
  }

  // ---------------------------------------------------------------------------
  // array_filter()

  /** array_filter($m) without a callback: drops the entries whose value is
      falsy, which for strings are "" and "0". */
  function ArrayFilter(m: map<string, string>): (r: map<string, string>)
    ensures r.Keys <= m.Keys
    ensures forall k :: k in r ==> r[k] == m[k] && !Empty(Some(r[k]))
    ensures forall k :: k in m && !Empty(Some(m[k])) ==> k in r
  {
    map k | k in m && !Empty(Some(m[k])) :: m[k]
  }
}
