/**
 * The text handling inside `process_data`: stripping the framing characters
 * NUL, CR and LF from both ends (`trim_matches`) and splitting on the literal
 * two-character separator CR LF (`split("\r\n")`).
 */
module Text {

  /** The characters `process_data` strips from both ends of the decoded text. */
  predicate IsClean(c: char) {
    c == '\0' || c == '\r' || c == '\n'
  }

  predicate AllClean(s: string) {
    forall k :: 0 <= k < |s| ==> IsClean(s[k])
  }

  /** Neither end of `s` is a character that trimming would remove. */
  predicate Unbordered(s: string) {
    s == [] || (!IsClean(s[0]) && !IsClean(s[|s| - 1]))
  }

  /** Removes the clean characters at the front: the result is the suffix of `s`
      that starts at its first non-clean character. */
  function TrimStart(s: string): (r: string)
    ensures |r| <= |s| && r == s[|s| - |r|..]
    ensures AllClean(s[..|s| - |r|])
    ensures r == [] || !IsClean(r[0])
  {
    if |s| > 0 && IsClean(s[0]) then
      var r := TrimStart(s[1..]);
      assert s[..|s| - |r|] == [s[0]] + s[1..][..|s| - 1 - |r|];
      r
    else
      s
  }

  /** Removes the clean characters at the back: the result is the prefix of `s`
      that ends at its last non-clean character. */
  function TrimEnd(s: string): (r: string)
    ensures |r| <= |s| && r == s[..|r|]
    ensures AllClean(s[|r|..])
    ensures r == [] || !IsClean(r[|r| - 1])
  {
    if |s| > 0 && IsClean(s[|s| - 1]) then
      var r := TrimEnd(s[..|s| - 1]);
      assert s[|r|..] == s[..|s| - 1][|r|..] + [s[|s| - 1]];
      r
    else
      s
  }

  /** `trim_matches(&['\0', '\r', '\n'])`: the slice of `s` left after removing
      clean characters from both ends, whose own ends are not clean. */
  function Trim(s: string): (r: string)
    ensures |r| <= |s|
    ensures exists i :: TrimmedAt(s, i, r)
    ensures Unbordered(r)
  {
    TrimStartEnd(s);
    TrimEnd(TrimStart(s))
  }

  /** `r` is the slice of `s` at `i` and only clean characters surround it. */
  ghost predicate TrimmedAt(s: string, i: int, r: string) {
    && 0 <= i <= |s| - |r| && r == s[i..i + |r|]
    && AllClean(s[..i]) && AllClean(s[i + |r|..])
  }

  lemma {:induction false} TrimStartEnd(s: string)
    ensures TrimmedAt(s, |s| - |TrimStart(s)|, TrimEnd(TrimStart(s)))
  {
    var t := TrimStart(s);
    var r := TrimEnd(t);
    var i := |s| - |t|;
    assert r == s[i..i + |r|];
    assert s[i + |r|..] == t[|r|..];
  }

  lemma {:induction false} SuffixWithin(s: string, n: nat, c: char)
    requires n <= |s| && c in s[n..]
    ensures c in s
  {
    var k :| 0 <= k < |s| - n && s[n..][k] == c;
    assert s[n + k] == c;
  }

  lemma {:induction false} PrefixWithin(s: string, n: nat, c: char)
    requires n <= |s| && c in s[..n]
    ensures c in s
  {
    var k :| 0 <= k < n && s[..n][k] == c;
    assert s[k] == c;
  }

  /** Trimming removes characters and adds none. */
  lemma {:induction false} TrimWithin(s: string, c: char)
    requires c in Trim(s)
    ensures c in s
  {
    var t := TrimStart(s);
    PrefixWithin(t, |TrimEnd(t)|, c);
    SuffixWithin(s, |s| - |t|, c);
  }

  /** Removing any clean prefix whose end is followed by a non-clean character
      (or the end of `s`) is exactly what `TrimStart` does. */
  lemma {:induction false} TrimStartDrops(s: string, i: nat)
    requires i <= |s| && AllClean(s[..i])
    requires i == |s| || !IsClean(s[i])
    ensures TrimStart(s) == s[i..]
  {
    if i > 0 {
      assert s[1..][..i - 1] == s[..i][1..];
      TrimStartDrops(s[1..], i - 1);
      assert s[1..][i - 1..] == s[i..];
    }
  }

  /** The mirror image of `TrimStartDrops` for the back of `s`. */
  lemma {:induction false} TrimEndDrops(s: string, j: nat)
    requires j <= |s| && AllClean(s[j..])
    requires j == 0 || !IsClean(s[j - 1])
    ensures TrimEnd(s) == s[..j]
  {
    if j < |s| {
      assert s[..|s| - 1][j..] == s[j..][..|s| - 1 - j];
      TrimEndDrops(s[..|s| - 1], j);
      assert s[..|s| - 1][..j] == s[..j];
    }
  }

  lemma {:induction false} AllCleanConcat(a: string, b: string)
    requires AllClean(a) && AllClean(b)
    ensures AllClean(a + b)
  {
  }

  /** Text made only of clean characters trims to the empty string. */
  lemma {:induction false} TrimAllClean(s: string)
    requires AllClean(s)
    ensures Trim(s) == []
  {
    assert s[..|s|] == s;
    TrimStartDrops(s, |s|);
  }

  /** Cutting off a clean prefix and a clean suffix that meet leaves nothing. */
  lemma {:induction false} TrimCleanHalves(s: string, i: nat)
    requires i <= |s| && AllClean(s[..i]) && AllClean(s[i..])
    ensures Trim(s) == []
  {
    assert s == s[..i] + s[i..];
    AllCleanConcat(s[..i], s[i..]);
    TrimAllClean(s);
  }

  /** Cutting off the clean ends around a non-empty unbordered middle. */
  lemma {:induction false} TrimAroundMiddle(s: string, i: nat, j: nat)
    requires i < j <= |s|
    requires AllClean(s[..i]) && AllClean(s[j..])
    requires Unbordered(s[i..j])
    ensures Trim(s) == s[i..j]
  {
    var t := s[i..];
    assert TrimStart(s) == t by {
      assert s[i] == s[i..j][0];
      TrimStartDrops(s, i);
    }
    assert TrimEnd(t) == s[i..j] by {
      assert t[j - i..] == s[j..];
      assert t[j - i - 1] == s[i..j][j - i - 1];
      TrimEndDrops(t, j - i);
      assert t[..j - i] == s[i..j];
    }
  }

  /** `Trim` is the only way to cut clean characters off both ends so that the
      remaining ends are not clean. */
  lemma {:induction false} TrimUnique(s: string, i: nat, j: nat)
    requires i <= j <= |s|
    requires AllClean(s[..i]) && AllClean(s[j..])
    requires Unbordered(s[i..j])
    ensures Trim(s) == s[i..j]
  {
    if i == j {
      TrimCleanHalves(s, i);
    } else {
      TrimAroundMiddle(s, i, j);
    }
  }

  /** Text whose ends are not clean is left alone. */
  lemma {:induction false} TrimKeepsUnbordered(s: string)
    requires Unbordered(s)
    ensures Trim(s) == s
  {
    assert s[..0] == [] && s[|s|..] == [];
    assert s[0..|s|] == s;
    TrimUnique(s, 0, |s|);
  }

  /** Trimming twice gives the same text as trimming once. */
  lemma {:induction false} TrimIdempotent(s: string)
    ensures Trim(Trim(s)) == Trim(s)
  {
    TrimKeepsUnbordered(Trim(s));
  }

  // ---------------------------------------------------------------------
  // Splitting on CR LF

  const Crlf: string := "\r\n"

  /** A CR LF pair starts at position `k` of `s`. */
  predicate HasCrlfAt(s: string, k: int) {
    0 <= k && k + 1 < |s| && s[k] == '\r' && s[k + 1] == '\n'
  }

  predicate ContainsCrlf(s: string) {
    exists k :: 0 <= k < |s| && HasCrlfAt(s, k)
  }

  /** The segments put back together with the separator between them. */
  function Join(parts: seq<string>): string
    requires |parts| >= 1
  {
    if |parts| == 1 then parts[0] else parts[0] + Crlf + Join(parts[1..])
  }

  /** `Join` starts with the first segment. */
  lemma {:induction false} JoinStartsWithFirst(parts: seq<string>)
    requires |parts| >= 1
    ensures |parts[0]| <= |Join(parts)| && Join(parts)[..|parts[0]|] == parts[0]
  {
  }

  /** A character put before text without a separator adds none, unless it
      is a CR before an LF. */
  lemma {:induction false} PrependNoCrlf(c: char, p: string)
    requires !ContainsCrlf(p)
    requires !(c == '\r' && |p| > 0 && p[0] == '\n')
    ensures !ContainsCrlf([c] + p)
  {
    var h := [c] + p;
    forall k | 0 < k < |h| && HasCrlfAt(h, k) ensures false {
      assert HasCrlfAt(p, k - 1);
    }
  }

  /** Joining after a character is put before the first segment. */
  lemma {:induction false} JoinPrepend(c: char, parts: seq<string>)
    requires |parts| >= 1
    ensures Join([[c] + parts[0]] + parts[1..]) == [c] + Join(parts)
  {
    var q := [[c] + parts[0]] + parts[1..];
    if |parts| > 1 {
      assert q[1..] == parts[1..];
      var j := Join(parts[1..]);
      assert Join(q) == [c] + parts[0] + Crlf + j;
      assert [c] + parts[0] + Crlf + j == [c] + (parts[0] + Crlf + j);
    }
  }

  /** Joining after an empty first segment. */
  lemma {:induction false} JoinAfterEmpty(parts: seq<string>)
    requires |parts| >= 1
    ensures Join([""] + parts) == Crlf + Join(parts)
  {
    assert ([""] + parts)[1..] == parts;
  }

  /** `s.split("\r\n")`: the pieces between non-overlapping separators taken
      from the left. There is always at least one piece, no piece holds a
      separator, and joining the pieces gives `s` back. */
  function Split(s: string): (parts: seq<string>)
    ensures |parts| >= 1
    ensures forall k :: 0 <= k < |parts| ==> !ContainsCrlf(parts[k])
    ensures Join(parts) == s
    decreases |s|
  {
    if |s| < 2 then
      assert forall k :: !HasCrlfAt(s, k);
      [s]
    else if s[0] == '\r' && s[1] == '\n' then
      var rest := Split(s[2..]);
      assert !ContainsCrlf("");
      JoinAfterEmpty(rest);
      assert s == Crlf + s[2..];
      [""] + rest
    else
      var rest := Split(s[1..]);
      JoinStartsWithFirst(rest);
      assert |rest[0]| > 0 ==> rest[0][0] == s[1];
      PrependNoCrlf(s[0], rest[0]);
      JoinPrepend(s[0], rest);
      assert s == [s[0]] + s[1..];
      [[s[0]] + rest[0]] + rest[1..]
  }

  /** Text without a separator is one segment. */
  lemma {:induction false} SplitWithoutCrlf(s: string)
    requires !ContainsCrlf(s)
    ensures Split(s) == [s]
  {
    var parts := Split(s);
    if |parts| >= 2 {
      JoinStartsWithFirst(parts);
      assert HasCrlfAt(s, |parts[0]|);
      assert false;
    }
  }

  /** A separator that follows a piece without one ends the first segment. */
  lemma {:induction false} SplitAtFirstCrlf(a: string, t: string)
    requires !ContainsCrlf(a)
    ensures Split(a + Crlf + t) == [a] + Split(t)
    decreases |a|
  {
    var s := a + Crlf + t;
    if |a| == 0 {
      assert s == Crlf + t;
      assert s[2..] == t;
    } else {
      assert s[0] == a[0];
      assert !(s[0] == '\r' && s[1] == '\n') by {
        if |a| >= 2 { assert !HasCrlfAt(a, 0); } else { assert s[1] == '\r'; }
      }
      assert !ContainsCrlf(a[1..]) by {
        forall k | HasCrlfAt(a[1..], k) ensures false { assert HasCrlfAt(a, k + 1); }
      }
      assert s[1..] == a[1..] + Crlf + t;
      SplitAtFirstCrlf(a[1..], t);
      assert [a[0]] + a[1..] == a;
    }
  }

  /** `Split` undoes `Join`: segments free of separators are recovered
      exactly from the joined text. */
  lemma {:induction false} SplitJoin(parts: seq<string>)
    requires |parts| >= 1
    requires forall k :: 0 <= k < |parts| ==> !ContainsCrlf(parts[k])
    ensures Split(Join(parts)) == parts
  {
    if |parts| == 1 {
      SplitWithoutCrlf(parts[0]);
    } else {
      SplitJoin(parts[1..]);
      SplitAtFirstCrlf(parts[0], Join(parts[1..]));
      assert [parts[0]] + parts[1..] == parts;
    }
  }

  /** The split yields two or more segments exactly when the text holds a
      separator. */
  lemma {:induction false} SplitManyIffCrlf(s: string)
    ensures |Split(s)| >= 2 <==> ContainsCrlf(s)
  {
    var parts := Split(s);
    if |parts| >= 2 {
      JoinStartsWithFirst(parts);
      assert HasCrlfAt(s, |parts[0]|);
    } else {
      assert Join(parts) == parts[0];
    }
  }
}
