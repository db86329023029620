/** How file_t::split (fs/file_t.cpp) takes a path apart. */
module PathNames {
  import opened StaticVectors

  predicate IsDelim(c: char, delim: string) {
    c in delim
  }

  /** First position from i on that is (or is not) a delimiter. */
  function Next(s: string, delim: string, i: nat, want: bool): (j: nat)
    requires i <= |s|
    ensures i <= j <= |s|
    ensures j < |s| ==> IsDelim(s[j], delim) == want
    ensures forall k :: i <= k < j ==> IsDelim(s[k], delim) != want
    decreases |s| - i
  {
    if i == |s| || IsDelim(s[i], delim) == want then i else Next(s, delim, i + 1, want)
  }

  /** The maximal runs of characters that are not delimiters. */
  function Words(s: string, delim: string, i: nat): seq<string>
    requires i <= |s|
    decreases |s| - i
  {
    var a := Next(s, delim, i, false);
    var b := Next(s, delim, a, true);
    if a == |s| then [] else [s[a..b]] + Words(s, delim, b)
  }

  predicate IsName(w: string, delim: string) {
    w != [] && forall k :: 0 <= k < |w| ==> !IsDelim(w[k], delim)
  }

  lemma {:induction false} WordsAreNames(s: string, delim: string, i: nat)
    requires i <= |s|
    ensures forall k :: 0 <= k < |Words(s, delim, i)| ==> IsName(Words(s, delim, i)[k], delim)
    decreases |s| - i
  {
    var a := Next(s, delim, i, false);
    if a < |s| {
      WordsAreNames(s, delim, Next(s, delim, a, true));
    }
  }

  /** Each word is a whole run: it starts and ends with the path or at a delimiter. */
  lemma {:induction false} WordsAreRuns(s: string, delim: string, i: nat, k: nat) returns (a: nat, b: nat)
    requires i <= |s| && (i == 0 || i == |s| || IsDelim(s[i], delim)) && k < |Words(s, delim, i)|
    ensures i <= a < b <= |s| && s[a..b] == Words(s, delim, i)[k]
    ensures (a == 0 || IsDelim(s[a - 1], delim)) && (b == |s| || IsDelim(s[b], delim))
    decreases |s| - i
  {
    hide IsDelim;
    a := Next(s, delim, i, false);
    b := Next(s, delim, a, true);
    if k > 0 {
      a, b := WordsAreRuns(s, delim, b, k - 1);
    }
  }

  function Concat(ws: seq<string>): string {
    if ws == [] then "" else ws[0] + Concat(ws[1..])
  }

  function Letters(s: string, delim: string): string {
    if s == "" then ""
    else if IsDelim(s[0], delim) then Letters(s[1..], delim)
    else [s[0]] + Letters(s[1..], delim)
  }

  lemma {:induction false} LettersOfRun(s: string, delim: string, i: nat, j: nat)
    requires i <= j <= |s|
    requires forall k :: i <= k < j ==> !IsDelim(s[k], delim)
    ensures Letters(s[i..], delim) == s[i..j] + Letters(s[j..], delim)
    decreases j - i
  {
    if i < j {
      LettersOfRun(s, delim, i + 1, j);
      assert s[i..][1..] == s[i + 1..];
      assert s[i..j] == [s[i]] + s[i + 1..j];
    } else {
      assert s[i..j] == [];
    }
  }

  lemma {:induction false} LettersOfGap(s: string, delim: string, i: nat, j: nat)
    requires i <= j <= |s|
    requires forall k :: i <= k < j ==> IsDelim(s[k], delim)
    ensures Letters(s[i..], delim) == Letters(s[j..], delim)
    decreases j - i
  {
    if i < j {
      LettersOfGap(s, delim, i + 1, j);
      assert s[i..][1..] == s[i + 1..];
    }
  }

  /** No letter of the path is lost or moved. */
  lemma {:induction false} WordsKeepLetters(s: string, delim: string, i: nat)
    requires i <= |s|
    ensures Concat(Words(s, delim, i)) == Letters(s[i..], delim)
    decreases |s| - i
  {
    var a := Next(s, delim, i, false);
    var b := Next(s, delim, a, true);
    LettersOfGap(s, delim, i, a);
    if a < |s| {
      LettersOfRun(s, delim, a, b);
      WordsKeepLetters(s, delim, b);
      assert Words(s, delim, i)[1..] == Words(s, delim, b);
    }
  }

  /** A path in its usual form: each name behind one delimiter. */
  function Joined(ws: seq<string>, d: char): string {
    if ws == [] then "" else [d] + ws[0] + Joined(ws[1..], d)
  }

  /** The words of s from i on depend only on what follows i. */
  lemma {:induction false} NextSuffix(s: string, delim: string, i: nat, j: nat, want: bool)
    requires i <= j <= |s|
    ensures Next(s, delim, j, want) == i + Next(s[i..], delim, j - i, want)
    decreases |s| - j
  {
    if j < |s| {
      NextSuffix(s, delim, i, j + 1, want);
    }
  }

  lemma {:induction false} WordsSuffix(s: string, delim: string, i: nat, j: nat)
    requires i <= j <= |s|
    ensures Words(s, delim, j) == Words(s[i..], delim, j - i)
    decreases |s| - j
  {
    hide Next, IsDelim;
    var t := s[i..];
    var a := Next(s, delim, j, false);
    var b := Next(s, delim, a, true);
    NextSuffix(s, delim, i, j, false);
    NextSuffix(s, delim, i, a, true);
    if a < |s| {
      assert b > a;
      WordsSuffix(s, delim, i, b);
      SliceOfSuffix(s, i, a, b);
    }
  }

  lemma SliceOfSuffix(s: string, i: nat, a: nat, b: nat)
    requires i <= a <= b <= |s|
    ensures s[i..][a - i..b - i] == s[a..b]
  {
  }

  lemma NextIs(s: string, delim: string, i: nat, j: nat, want: bool)
    requires i <= j <= |s| && (j < |s| ==> IsDelim(s[j], delim) == want)
    requires forall k :: i <= k < j ==> IsDelim(s[k], delim) != want
    ensures Next(s, delim, i, want) == j
  {
    assert j < |s| ==> IsDelim(s[j], delim) == want;
  }

  /** Splitting a joined path gives the names back. */
  lemma {:induction false} SplitJoined(ws: seq<string>, d: char)
    requires forall k :: 0 <= k < |ws| ==> IsName(ws[k], [d])
    ensures Words(Joined(ws, d), [d], 0) == ws
  {
    hide Next;
    var s := Joined(ws, d);
    if ws != [] {
      var w, rest := ws[0], Joined(ws[1..], d);
      var b := 1 + |w|;
      assert s == [d] + w + rest && |s| == b + |rest|;
      assert s[1..b] == w && s[b..] == rest;
      assert forall k :: 1 <= k < b ==> s[k] == w[k - 1];
      assert !IsDelim(s[1], [d]);
      NextIs(s, [d], 0, 1, false);
      assert rest != "" ==> rest[0] == d && s[b] == rest[0];
      NextIs(s, [d], 1, b, true);
      WordsSuffix(s, [d], b, b);
      SplitJoined(ws[1..], d);
      assert Words(s, [d], 0) == [w] + Words(s, [d], b);
    }
  }

  function Prefix<T>(s: seq<T>, n: nat): seq<T> {
    if |s| <= n then s else s[..n]
  }

  /** split; the vector of parts holds ten. */
  method Split(str: string, delim: string) returns (parts: seq<string>)
    ensures parts == Prefix(Words(str, delim, 0), 10)
  {
    parts := [];
    var start, end := 0, 0;
    ghost var all := Words(str, delim, 0);
    ghost var done: seq<string> := [];
    while end < |str|
      invariant start <= end <= |str|
      invariant all == done + Words(str, delim, end) && parts == Prefix(done, 10)
      decreases |str| - end
    {
      ghost var from := end;
      start := end;
      while start < |str| && IsDelim(str[start], delim)
        invariant from <= start <= |str|
        invariant Next(str, delim, start, false) == Next(str, delim, from, false)
      {
        start := start + 1;
      }
      end := start;
      while end < |str| && !IsDelim(str[end], delim)
        invariant start <= end <= |str|
        invariant Next(str, delim, end, true) == Next(str, delim, start, true)
      {
        end := end + 1;
      }
      assert start == Next(str, delim, from, false) && end == Next(str, delim, start, true);
      if end - start != 0 {
        parts := Pushed(parts, str[start..end], 10);
        done := done + [str[start..end]];
      }
    }
    assert Words(str, delim, |str|) == [];
    assert all == done;
  }
}
