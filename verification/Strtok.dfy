/** strtok of lib-clib/src/strtok.c: a pointer carried between calls and NULs written into the caller's buffer. */
module Strtok {
  import opened Integers
  import opened Wrappers
  import opened CStrings

  // ---- one call ----

  /** First position from `i` on that is no delimiter. */
  ghost function Skip(m: seq<char>, i: nat, delim: string): (j: nat)
    ensures i <= j && (j <= |m| || j == i)
    ensures forall k :: i <= k < j && k < |m| ==> m[k] in delim
    ensures j < |m| ==> m[j] !in delim
    decreases |m| - i
  {
    if i < |m| && m[i] in delim then Skip(m, i + 1, delim) else i
  }

  /** First position from `i` on that is a delimiter or the end of the string. */
  ghost function Stop(m: seq<char>, i: nat, delim: string): (j: nat)
    ensures i <= j && (j <= |m| || j == i)
    ensures forall k :: i <= k < j && k < |m| ==> m[k] !in delim && m[k] != '\0'
    ensures j < |m| ==> m[j] in delim || m[j] == '\0'
    decreases |m| - i
  {
    if i < |m| && m[i] !in delim && m[i] != '\0' then Stop(m, i + 1, delim) else i
  }

  /** Buffer, saved position and returned token of one call that starts at `p`. */
  datatype Outcome = Outcome(m: seq<char>, last: Option<nat>, token: Option<nat>)

  ghost function Call(m: seq<char>, p: Option<nat>, delim: string): Outcome {
    if p.None? then Outcome(m, None, None)
    else
      var i := Skip(m, p.value, delim);
      if At(m, i) == '\0' then Outcome(m, None, None)
      else
        var j := Stop(m, i + 1, delim);
        if At(m, j) == '\0' then Outcome(m, None, Some(i))
        else Outcome(m[j := '\0'], Some(j + 1), Some(i))
  }

  ghost predicate Terminated(m: seq<char>, i: nat) {
    exists k :: i <= k < |m| && m[k] == '\0'
  }

  /** The function with its static pointer: a buffer and an offset, or null. */
  class Tokenizer {
    var buffer: array?<char>
    var last: nat

    ghost function Saved(): Option<nat>
      reads this
    {
      if buffer == null then None else Some(last)
    }

    /** `s` with offset `off` starts on a new string; a null `s` goes on with the saved one. */
    method Strtok(s: array?<char>, off: nat, delim: string) returns (token: Option<nat>)
      requires '\0' !in delim
      requires s != null ==> Terminated(s[..], off)
      requires s == null && buffer != null ==> Terminated(buffer[..], last)
      modifies this, if s != null then s else buffer
      ensures s == null && old(buffer) == null ==> token == None && buffer == null
      ensures var b := if s != null then s else old(buffer);
              b != null ==>
                var o := Call(old(b[..]), Some(if s != null then off else old(last)), delim);
                && b[..] == o.m && token == o.token && Saved() == o.last
                && (buffer == null || (buffer == b && Terminated(b[..], last)))
    {
      hide Skip, Stop;
      var b, p := s, off;
      if b == null {
        b, p := buffer, last;
        if b == null {
          return None;
        }
      }
      ghost var m, start := b[..], p;
      ghost var end :| start <= end < |m| && m[end] == '\0';
      p := SkipLeading(b, p, delim, end);
      if b[p - 1] == '\0' {
        buffer := null;
        return None;
      }
      var tok := p - 1;
      p := ScanToken(b, p, delim, end);
      if b[p - 1] == '\0' {
        buffer := null;
      } else {
        b[p - 1] := '\0';
        buffer, last := b, p;
        assert p <= end < |b[..]| && b[..][end] == '\0';
      }
      token := Some(tok);
    }

    /** The loop at `cont`: reads up to and including the first character that is no delimiter. */
    method SkipLeading(b: array<char>, p0: nat, delim: string, ghost end: nat) returns (p: nat)
      requires p0 <= end < b.Length && b[end] == '\0' && '\0' !in delim
      ensures p0 < p <= end + 1 && p - 1 == Skip(b[..], p0, delim)
    {
      p := p0;
      var c := b[p];
      p := p + 1;
      var inSpan := IsIn(c, delim);
      while inSpan
        invariant p0 < p <= end + 1 && c == b[p - 1] && inSpan == (c in delim)
        invariant Skip(b[..], p0, delim) == Skip(b[..], p - 1, delim)
        decreases b.Length - p
      {
        c := b[p];
        p := p + 1;
        inSpan := IsIn(c, delim);
      }
    }

    /** The token loop: reads up to and including the delimiter or NUL behind the token. */
    method ScanToken(b: array<char>, p0: nat, delim: string, ghost end: nat) returns (p: nat)
      requires p0 <= end < b.Length && b[end] == '\0'
      ensures p0 < p <= end + 1 && p - 1 == Stop(b[..], p0, delim)
    {
      p := p0;
      while true
        invariant p0 <= p <= end && Stop(b[..], p0, delim) == Stop(b[..], p, delim)
        decreases b.Length - p
      {
        var c := b[p];
        p := p + 1;
        var stop := IsIn(c, delim);
        if stop || c == '\0' {
          return;
        }
      }
    }

    /** The scan of the delimiter string up to its NUL. */
    method IsIn(c: char, delim: string) returns (found: bool)
      ensures found == (c in delim)
    {
      var k := 0;
      while k < |delim|
        invariant k <= |delim| && c !in delim[..k]
      {
        if delim[k] == c {
          return true;
        }
        k := k + 1;
      }
      found := false;
    }
  }

  // ---- all the tokens of a string ----

  /** [i, j) is a maximal delimiter-free run of the string in [off, e). */
  ghost predicate IsRun(m: seq<char>, off: nat, e: nat, delim: string, i: nat, j: nat) {
    && off <= i < j <= e <= |m|
    && (forall k :: i <= k < j ==> m[k] !in delim)
    && (i == off || m[i - 1] in delim)
    && (j == e || m[j] in delim)
  }

  /** The string from `q` ends with the NUL at `e`. */
  ghost predicate IsString(m: seq<char>, q: nat, e: nat) {
    q <= e < |m| && m[e] == '\0' && forall k :: q <= k < e ==> m[k] != '\0'
  }

  /** The delimiter-free runs of [q, e), left to right. */
  ghost function Tokens(m: seq<char>, q: nat, e: nat, delim: string): seq<(nat, nat)>
    requires IsString(m, q, e) && '\0' !in delim
    decreases e - q
  {
    if q == e then []
    else if m[q] in delim then Tokens(m, q + 1, e, delim)
    else
      var j := Stop(m, q + 1, delim);
      StopInside(m, q + 1, e, delim);
      [(q, j)] + Tokens(m, j, e, delim)
  }

  lemma StopInside(m: seq<char>, q: nat, e: nat, delim: string)
    requires IsString(m, q, e) && '\0' !in delim
    ensures q <= Stop(m, q, delim) <= e
    ensures q <= Skip(m, q, delim) <= e
  {
    var j, i := Stop(m, q, delim), Skip(m, q, delim);
    assert m[e] == '\0';
  }

  /** A scan may start at `q`: the string's start, behind or on a delimiter, or at the end. */
  ghost predicate Boundary(m: seq<char>, off: nat, q: nat, e: nat, delim: string) {
    off <= q <= e < |m| && (q == off || m[q - 1] in delim || m[q] in delim || q == e)
  }

  lemma FirstRun(m: seq<char>, off: nat, q: nat, e: nat, delim: string)
    requires IsString(m, q, e) && '\0' !in delim && Boundary(m, off, q, e, delim) && q < e && m[q] !in delim
    ensures var j := Stop(m, q + 1, delim);
            && IsRun(m, off, e, delim, q, j) && Boundary(m, off, j, e, delim) && IsString(m, j, e)
            && Tokens(m, q, e, delim) == [(q, j)] + Tokens(m, j, e, delim)
            && forall i: nat, k: nat :: q <= i && IsRun(m, off, e, delim, i, k) ==> (i, k) == (q, j) || j <= i
  {
    var j := Stop(m, q + 1, delim);
    StopInside(m, q + 1, e, delim);
    forall i: nat, k: nat | q <= i && IsRun(m, off, e, delim, i, k) ensures (i, k) == (q, j) || j <= i {
      RunStarts(m, off, e, delim, i, k, q, j);
    }
  }

  /** A run that starts inside another one is that run. */
  lemma RunStarts(m: seq<char>, off: nat, e: nat, delim: string, i: nat, k: nat, q: nat, j: nat)
    requires IsRun(m, off, e, delim, i, k) && IsRun(m, off, e, delim, q, j) && q <= i
    ensures (i, k) == (q, j) || j <= i
  {
    assert i == off || m[i - 1] in delim;
    assert k == e || m[k] in delim;
    assert j == e || m[j] in delim;
  }

  ghost predicate AreRuns(m: seq<char>, off: nat, q: nat, e: nat, delim: string, t: seq<(nat, nat)>) {
    forall n :: 0 <= n < |t| ==> q <= t[n].0 && IsRun(m, off, e, delim, t[n].0, t[n].1)
  }

  /** Every token is a maximal delimiter-free run. */
  lemma {:induction false} TokensAreRuns(m: seq<char>, off: nat, q: nat, e: nat, delim: string)
    requires IsString(m, q, e) && '\0' !in delim && Boundary(m, off, q, e, delim)
    ensures AreRuns(m, off, q, e, delim, Tokens(m, q, e, delim))
    decreases e - q
  {
    if q < e {
      if m[q] in delim {
        TokensAreRuns(m, off, q + 1, e, delim);
      } else {
        FirstRun(m, off, q, e, delim);
        TokensAreRuns(m, off, Stop(m, q + 1, delim), e, delim);
      }
    }
  }

  /** Every maximal delimiter-free run is a token. */
  lemma {:induction false} RunsAreTokens(m: seq<char>, off: nat, q: nat, e: nat, delim: string, i: nat, k: nat)
    requires IsString(m, q, e) && '\0' !in delim && Boundary(m, off, q, e, delim)
    requires q <= i && IsRun(m, off, e, delim, i, k)
    ensures (i, k) in Tokens(m, q, e, delim)
    decreases e - q
  {
    if m[q] in delim {
      RunsAreTokens(m, off, q + 1, e, delim, i, k);
    } else {
      FirstRun(m, off, q, e, delim);
      var j := Stop(m, q + 1, delim);
      assert Tokens(m, q, e, delim)[0] == (q, j);
      if (i, k) != (q, j) {
        RunsAreTokens(m, off, j, e, delim, i, k);
      }
    }
  }

  ghost predicate Ascending(t: seq<(nat, nat)>) {
    forall a, b :: 0 <= a < b < |t| ==> t[a].1 < t[b].0
  }

  /** The tokens come in order, with a delimiter between any two. */
  lemma {:induction false} TokensAscend(m: seq<char>, off: nat, q: nat, e: nat, delim: string)
    requires IsString(m, q, e) && '\0' !in delim && Boundary(m, off, q, e, delim)
    ensures Ascending(Tokens(m, q, e, delim))
    decreases e - q
  {
    if q < e {
      if m[q] in delim {
        TokensAscend(m, off, q + 1, e, delim);
        assert Tokens(m, q, e, delim) == Tokens(m, q + 1, e, delim);
      } else {
        FirstRun(m, off, q, e, delim);
        var j := Stop(m, q + 1, delim);
        TokensAscend(m, off, j, e, delim);
        TokensAreRuns(m, off, j, e, delim);
        var rest := Tokens(m, j, e, delim);
        forall b | 0 <= b < |rest| ensures j < rest[b].0 {
          assert IsRun(m, off, e, delim, rest[b].0, rest[b].1);
        }
        AscendingMore((q, j), rest);
      }
    }
  }

  lemma AscendingMore(x: (nat, nat), t: seq<(nat, nat)>)
    requires Ascending(t) && forall b :: 0 <= b < |t| ==> x.1 < t[b].0
    ensures Ascending([x] + t)
  {
  }

  // ---- successive calls ----

  ghost function After(m: seq<char>, p: Option<nat>, delim: string, n: nat): Outcome {
    if n == 0 then Outcome(m, p, None)
    else
      var o := After(m, p, delim, n - 1);
      Call(o.m, o.last, delim)
  }

  /** The buffer with a NUL at the end of each of the first `n` tokens. */
  ghost function Cut(m: seq<char>, t: seq<(nat, nat)>, n: nat): (r: seq<char>)
    requires n <= |t|
    ensures |r| == |m|
  {
    if n == 0 then m
    else
      var r := Cut(m, t, n - 1);
      if t[n - 1].1 < |m| then r[t[n - 1].1 := '\0'] else r
  }

  /** Leading delimiters do not change the tokens. */
  lemma {:induction false} SkipKeepsTokens(m: seq<char>, q: nat, e: nat, delim: string)
    requires IsString(m, q, e) && '\0' !in delim
    ensures var i := Skip(m, q, delim); q <= i <= e && IsString(m, i, e) && Tokens(m, q, e, delim) == Tokens(m, i, e, delim)
    decreases e - q
  {
    StopInside(m, q, e, delim);
    if q < e && m[q] in delim {
      SkipKeepsTokens(m, q + 1, e, delim);
    }
  }

  /** The two buffers agree from `q` on. */
  ghost predicate SameFrom(m0: seq<char>, m: seq<char>, q: nat) {
    |m| == |m0| && forall x :: q <= x < |m| ==> m[x] == m0[x]
  }

  lemma {:induction false} SameScans(m0: seq<char>, m: seq<char>, q: nat, i: nat, delim: string)
    requires SameFrom(m0, m, q) && q <= i
    ensures Skip(m, i, delim) == Skip(m0, i, delim) && Stop(m, i, delim) == Stop(m0, i, delim)
    decreases |m| - i
  {
    if i < |m| {
      SameScans(m0, m, q, i + 1, delim);
    }
  }

  lemma SameAt(m0: seq<char>, m: seq<char>, q: nat, x: nat)
    requires SameFrom(m0, m, q) && q <= x
    ensures At(m, x) == At(m0, x)
  {
  }

  lemma CutBehind(m0: seq<char>, m: seq<char>, q: nat, j: nat)
    requires SameFrom(m0, m, q) && q <= j < |m|
    ensures SameFrom(m0, m[j := '\0'], j + 1)
  {
  }

  lemma CutEnd(m0: seq<char>, m: seq<char>, q: nat, e: nat)
    requires SameFrom(m0, m, q) && q <= e < |m| && m0[e] == '\0'
    ensures m[e := '\0'] == m
  {
  }

  /** The first token of a string and what is left behind it. */
  lemma FirstToken(m: seq<char>, q: nat, e: nat, delim: string)
    requires IsString(m, q, e) && '\0' !in delim
    ensures var t, i := Tokens(m, q, e, delim), Skip(m, q, delim);
            && q <= i <= e && (t == [] <==> i == e)
            && (i < e ==>
              var j := Stop(m, i + 1, delim);
              && m[i] != '\0' && i < j <= e && t[0] == (i, j) && (m[j] == '\0' <==> j == e)
              && t[1..] == if j == e then [] else Tokens(m, j + 1, e, delim))
  {
    SkipKeepsTokens(m, q, e, delim);
    var i := Skip(m, q, delim);
    if i < e {
      StopInside(m, i + 1, e, delim);
      var j := Stop(m, i + 1, delim);
      FirstOf((i, j), Tokens(m, j, e, delim));
    }
  }

  lemma FirstOf(x: (nat, nat), t: seq<(nat, nat)>)
    ensures ([x] + t)[0] == x && ([x] + t)[1..] == t
  {
  }

  /** One call on a buffer that agrees with the original from `q` on: it returns the next token of the original
      and writes one NUL, or it returns null and writes nothing. */
  lemma CallStep(m0: seq<char>, m: seq<char>, q: nat, e: nat, delim: string)
    requires IsString(m0, q, e) && '\0' !in delim && SameFrom(m0, m, q)
    ensures var t, o := Tokens(m0, q, e, delim), Call(m, Some(q), delim);
            if t == [] then o == Outcome(m, None, None)
            else
              && o.token == Some(t[0].0) && q <= t[0].1 <= e
              && (if t[0].1 == e then o.last == None && |t| == 1 && o.m == m
                  else o.last == Some(t[0].1 + 1) && t[1..] == Tokens(m0, t[0].1 + 1, e, delim) && o.m == m[t[0].1 := '\0'])
  {
    hide Skip, Stop, Tokens, SameFrom;
    SameScans(m0, m, q, q, delim);
    FirstToken(m0, q, e, delim);
    var i := Skip(m0, q, delim);
    SameAt(m0, m, q, i);
    if i < e {
      SameScans(m0, m, q, i + 1, delim);
      SameAt(m0, m, q, Stop(m0, i + 1, delim));
    }
  }

  /** Where the calls stand after `n` of them: the first tokens have been cut off, and the saved pointer is behind
      the last of them, or null once the string is used up. */
  ghost predicate Reached(m: seq<char>, off: nat, e: nat, delim: string, n: nat, o: Outcome)
    requires IsString(m, off, e) && '\0' !in delim
  {
    var t := Tokens(m, off, e, delim);
    && o.m == Cut(m, t, Min(n, |t|))
    && match o.last
       case None => n >= |t|
       case Some(q) => n <= |t| && off <= q && IsString(m, q, e) && SameFrom(m, o.m, q) && Tokens(m, q, e, delim) == t[n..]
  }

  lemma ReachedStart(m: seq<char>, off: nat, e: nat, delim: string)
    requires IsString(m, off, e) && '\0' !in delim
    ensures Reached(m, off, e, delim, 0, Outcome(m, Some(off), None))
  {
    hide Tokens;
    var t := Tokens(m, off, e, delim);
    assert t[0..] == t;
  }

  lemma ReachedNext(m: seq<char>, off: nat, e: nat, delim: string, n: nat, o: Outcome)
    requires IsString(m, off, e) && '\0' !in delim && Reached(m, off, e, delim, n, o)
    ensures Reached(m, off, e, delim, n + 1, Call(o.m, o.last, delim))
  {
    hide Skip, Stop, Tokens, SameFrom;
    var t := Tokens(m, off, e, delim);
    if o.last.Some? {
      hide Call;
      var q := o.last.value;
      CallStep(m, o.m, q, e, delim);
      if n < |t| {
        assert t[n..][0] == t[n] && t[n..][1..] == t[n + 1..];
        var j := t[n].1;
        if j < e {
          CutBehind(m, o.m, q, j);
        } else {
          CutEnd(m, o.m, q, j);
        }
      }
    }
  }

  lemma {:induction false} AfterCalls(m: seq<char>, off: nat, e: nat, delim: string, n: nat)
    requires IsString(m, off, e) && '\0' !in delim
    ensures Reached(m, off, e, delim, n, After(m, Some(off), delim, n))
  {
    hide Call, Reached, Tokens;
    if n == 0 {
      ReachedStart(m, off, e, delim);
    } else {
      AfterCalls(m, off, e, delim, n - 1);
      ReachedNext(m, off, e, delim, n - 1, After(m, Some(off), delim, n - 1));
    }
  }

  /** Successive calls with the same delimiters return exactly the tokens of the original string, left to right,
      and then null forever; the buffer has changed only at the end of each token returned. */
  lemma CallsReturnTokens(m: seq<char>, off: nat, e: nat, delim: string, n: nat)
    requires IsString(m, off, e) && '\0' !in delim
    ensures var t, o := Tokens(m, off, e, delim), After(m, Some(off), delim, n);
            && o.m == Cut(m, t, Min(n, |t|))
            && Call(o.m, o.last, delim).token == if n < |t| then Some(t[n].0) else None
  {
    var t, o := Tokens(m, off, e, delim), After(m, Some(off), delim, n);
    AfterCalls(m, off, e, delim, n);
    if o.last.Some? {
      CallStep(m, o.m, o.last.value, e, delim);
      if n < |t| {
        assert t[n..][0] == t[n];
      }
    }
  }

  /** Cutting writes only at ends of tokens. */
  lemma {:induction false} CutAt(m: seq<char>, t: seq<(nat, nat)>, n: nat, x: nat)
    requires n <= |t| && x < |m|
    ensures Cut(m, t, n)[x] == if exists a :: 0 <= a < n && t[a].1 == x then '\0' else m[x]
  {
    if n > 0 {
      CutAt(m, t, n - 1, x);
      if t[n - 1].1 == x {
        assert 0 <= n - 1 < n && t[n - 1].1 == x;
      }
    }
  }

  /** What the caller reads: once the n-th token has been returned, and however many calls follow, the C string at
      its pointer is exactly that run of the original string. */
  lemma TokenText(m: seq<char>, off: nat, e: nat, delim: string, n: nat, calls: nat)
    requires IsString(m, off, e) && '\0' !in delim && n < |Tokens(m, off, e, delim)| && n < calls
    ensures var t, r := Tokens(m, off, e, delim), After(m, Some(off), delim, calls).m;
            && t[n].0 < t[n].1 < |r| == |m|
            && r[t[n].0..t[n].1] == m[t[n].0..t[n].1] && r[t[n].1] == '\0'
            && IsRun(m, off, e, delim, t[n].0, t[n].1)
  {
    hide After, Cut, Tokens;
    var t := Tokens(m, off, e, delim);
    TokensAreRuns(m, off, off, e, delim);
    TokensAscend(m, off, off, e, delim);
    AfterCalls(m, off, e, delim, calls);
    CutKeeps(m, t, n, Min(calls, |t|));
  }

  /** The cuts lie behind the tokens and outside all of them. */
  lemma CutKeeps(m: seq<char>, t: seq<(nat, nat)>, n: nat, c: nat)
    requires n < c <= |t| && t[n].1 < |m| && forall a :: 0 <= a < |t| ==> t[a].0 < t[a].1
    requires Ascending(t)
    ensures var r := Cut(m, t, c); r[t[n].0..t[n].1] == m[t[n].0..t[n].1] && r[t[n].1] == '\0'
  {
    var r := Cut(m, t, c);
    CutAt(m, t, c, t[n].1);
    forall x | t[n].0 <= x < t[n].1 ensures r[x] == m[x] {
      CutAt(m, t, c, x);
      forall a | 0 <= a < c ensures t[a].1 != x {
        assert a < n || a == n || n < a;
      }
    }
  }
}
