/** `strtok` and `strtok_r`, which cut a string into tokens in place, and the searches they are made of.
    A pointer is a place in a buffer of characters; a string ends at its first zero. */
module Strtok {
  import opened Wrappers

  /** From `at` there is a string whose terminating zero is at `end`. */
  ghost predicate IsString(m: seq<nat>, at: nat, end: nat) {
    at <= end < |m| && m[end] == 0 && forall k :: at <= k < end ==> m[k] != 0
  }

  /** A set of delimiters is a string too, its zero left out. */
  ghost predicate IsSet(delim: seq<nat>) {
    forall i :: 0 <= i < |delim| ==> delim[i] != 0
  }

  // ---------------------------------------------------------------- searching

  /** `strchr`, of a string without its zero. */
  method Strchr(s: seq<nat>, c: nat) returns (r: Option<nat>)
    requires IsSet(s)
    ensures r.Some? <==> c == 0 || c in s
    ensures r.Some? ==> r.value <= |s| && c !in s[..r.value] && c == if r.value < |s| then s[r.value] else 0
  {
    var i := 0;
    while (if i < |s| then s[i] else 0) != c
      invariant i <= |s| && c !in s[..i]
      decreases |s| - i
    {
      if i == |s| {
        return None;
      }
      i := i + 1;
    }
    return Some(i);
  }

  /** The first place from `at` on that is not inside: a zero ends both what is inside and what is outside `delim`. */
  function Skip(m: seq<nat>, at: nat, delim: seq<nat>, inside: bool): (r: nat)
    ensures r >= at
    decreases |m| - at
  {
    if at >= |m| || m[at] == 0 || (m[at] in delim) != inside then at else Skip(m, at + 1, delim, inside)
  }

  lemma {:induction false} SkipMeaning(m: seq<nat>, at: nat, delim: seq<nat>, inside: bool, end: nat)
    requires IsString(m, at, end)
    ensures var r := Skip(m, at, delim, inside);
            r <= end && (r < end ==> (m[r] in delim) != inside) && forall k :: at <= k < r ==> (m[k] in delim) == inside
    decreases end - at
  {
    if at < end && (m[at] in delim) == inside {
      SkipMeaning(m, at + 1, delim, inside, end);
    }
  }

  /** `strspn`. */
  method Strspn(m: array<nat>, at: nat, delim: seq<nat>, ghost end: nat) returns (ret: nat)
    requires IsString(m[..], at, end) && IsSet(delim)
    ensures at + ret == Skip(m[..], at, delim, true)
  {
    var s1 := at;
    ret := 0;
    while true
      invariant s1 == at + ret <= end && Skip(m[..], at, delim, true) == Skip(m[..], s1, delim, true)
      decreases end - s1
    {
      if m[s1] == 0 { break; }
      var found := Strchr(delim, m[s1]);
      s1 := s1 + 1;
      if found.None? { break; }
      ret := ret + 1;
    }
  }

  /** `strcspn`. */
  method Strcspn(m: array<nat>, at: nat, delim: seq<nat>, ghost end: nat) returns (ret: nat)
    requires IsString(m[..], at, end) && IsSet(delim)
    ensures at + ret == Skip(m[..], at, delim, false)
  {
    var s1 := at;
    ret := 0;
    while m[s1] != 0
      invariant s1 == at + ret <= end && Skip(m[..], at, delim, false) == Skip(m[..], s1, delim, false)
      decreases end - s1
    {
      var found := Strchr(delim, m[s1]);
      if found.Some? {
        return;
      }
      s1, ret := s1 + 1, ret + 1;
    }
  }

  /** `strpbrk`: the first delimiter from `at` on. */
  method Strpbrk(m: array<nat>, at: nat, accept: seq<nat>, ghost end: nat) returns (r: Option<nat>)
    requires IsString(m[..], at, end) && IsSet(accept)
    ensures var b := Skip(m[..], at, accept, false); r == if b < |m[..]| && m[b] != 0 then Some(b) else None
  {
    var acc, str := 0, at;
    if m[str] == 0 {
      return None;
    }
    while m[str] != 0
      invariant at <= str <= end && Skip(m[..], at, accept, false) == Skip(m[..], str, accept, false)
      invariant acc <= |accept| && (m[str] == 0 ==> acc == |accept|)
      decreases end - str
    {
      acc := 0;
      while acc < |accept|
        invariant acc <= |accept| && m[str] !in accept[..acc]
      {
        if m[str] == accept[acc] {
          break;
        }
        acc := acc + 1;
      }
      if acc < |accept| {
        break;
      }
      str := str + 1;
    }
    if acc == |accept| {
      return None;
    }
    return Some(str);
  }

  /** `lfind`. */
  method Lfind(m: array<nat>, str: nat, accept: nat, ghost there: nat) returns (i: nat)
    requires str <= there < m.Length && m[there] == accept
    ensures str <= i <= there && m[i] == accept && accept !in m[str..i]
  {
    i := str;
    while m[i] != accept
      invariant str <= i <= there && accept !in m[str..i]
      decreases there - i
    {
      i := i + 1;
    }
  }

  // ---------------------------------------------------------------- the runs of a string

  /** A token: the characters from `start` up to `stop`. */
  datatype Run = Run(start: nat, stop: nat)

  /** The first token from `at` on. */
  function NextRun(m: seq<nat>, at: nat, delim: seq<nat>): Run {
    var a := Skip(m, at, delim, true);
    Run(a, Skip(m, a, delim, false))
  }

  /** The tokens of the string from `at` to `end`. */
  ghost function Runs(m: seq<nat>, at: nat, end: nat, delim: seq<nat>): seq<Run>
    requires IsString(m, at, end)
    decreases end - at
  {
    var run := NextRun(m, at, delim);
    SkipMeaning(m, at, delim, true, end);
    SkipMeaning(m, run.start, delim, false, end);
    if run.start == run.stop then []
    else if run.stop == end then [run]
    else [run] + Runs(m, run.stop + 1, end, delim)
  }

  ghost predicate Within(k: nat, runs: seq<Run>) {
    exists i :: 0 <= i < |runs| && runs[i].start <= k < runs[i].stop
  }

  /** Non-empty, in order, and with something between any two. */
  ghost predicate Apart(runs: seq<Run>, at: nat, end: nat) {
    (forall i :: 0 <= i < |runs| ==> at <= runs[i].start < runs[i].stop <= end)
    && forall i, j :: 0 <= i < j < |runs| ==> runs[i].stop < runs[j].start
  }

  lemma {:induction false} FirstRun(m: seq<nat>, at: nat, end: nat, delim: seq<nat>)
    requires IsString(m, at, end)
    ensures var run := NextRun(m, at, delim);
            && at <= run.start <= run.stop <= end
            && (forall k :: at <= k < run.start ==> m[k] in delim)
            && (forall k :: run.start <= k < run.stop ==> m[k] !in delim)
            && (run.start == run.stop ==> run.stop == end)
            && (run.stop < end ==> m[run.stop] in delim && IsString(m, run.stop + 1, end))
            && Runs(m, at, end, delim) == if run.start == run.stop then []
                                          else if run.stop == end then [run]
                                          else [run] + Runs(m, run.stop + 1, end, delim)
  {
    SkipMeaning(m, at, delim, true, end);
    SkipMeaning(m, NextRun(m, at, delim).start, delim, false, end);
    hide Skip;
  }

  lemma ApartMore(run: Run, rest: seq<Run>, at: nat, end: nat)
    requires at <= run.start <= run.stop <= end && (rest == [] || Apart(rest, run.stop + 1, end))
    ensures Apart([], at, end)
    ensures run.start < run.stop ==> Apart([run] + rest, at, end)
  {
    var runs := [run] + rest;
    assert runs[0] == run && forall i :: 0 < i < |runs| ==> runs[i] == rest[i - 1];
  }

  lemma {:induction false} RunsApart(m: seq<nat>, at: nat, end: nat, delim: seq<nat>)
    requires IsString(m, at, end)
    ensures Apart(Runs(m, at, end, delim), at, end)
    decreases end - at
  {
    hide *;
    var run := NextRun(m, at, delim);
    FirstRun(m, at, end, delim);
    if run.start < run.stop < end {
      RunsApart(m, run.stop + 1, end, delim);
      ApartMore(run, Runs(m, run.stop + 1, end, delim), at, end);
    } else {
      ApartMore(run, [], at, end);
      assert [run] + [] == [run];
    }
  }

  lemma NothingWithin(k: nat)
    ensures !Within(k, [])
  {
  }

  lemma WithinFirst(k: nat, run: Run, rest: seq<Run>)
    ensures Within(k, [run] + rest) <==> run.start <= k < run.stop || Within(k, rest)
  {
    var runs := [run] + rest;
    assert runs[0] == run && forall i :: 0 <= i < |rest| ==> runs[i + 1] == rest[i];
  }

  lemma WithinLater(k: nat, runs: seq<Run>, stop: nat, end: nat)
    requires runs == [] || Apart(runs, stop + 1, end)
    ensures k <= stop ==> !Within(k, runs)
  {
  }

  lemma {:induction false} RunsCover(m: seq<nat>, at: nat, end: nat, delim: seq<nat>, k: nat)
    requires IsString(m, at, end) && at <= k < end
    ensures m[k] !in delim <==> Within(k, Runs(m, at, end, delim))
    decreases end - at
  {
    hide Within, Apart, Runs, NextRun, Skip;
    var run := NextRun(m, at, delim);
    FirstRun(m, at, end, delim);
    NothingWithin(k);
    WithinFirst(k, run, []);
    assert [run] + [] == [run];
    if run.start < run.stop < end {
      var rest := Runs(m, run.stop + 1, end, delim);
      WithinFirst(k, run, rest);
      RunsApart(m, run.stop + 1, end, delim);
      WithinLater(k, rest, run.stop, end);
      if k > run.stop {
        RunsCover(m, run.stop + 1, end, delim, k);
      }
    }
  }

  /** The tokens are the maximal runs without a delimiter: apart, and together all that is not a delimiter. */
  lemma RunsAreMaximal(m: seq<nat>, at: nat, end: nat, delim: seq<nat>)
    requires IsString(m, at, end)
    ensures Apart(Runs(m, at, end, delim), at, end)
    ensures forall k :: at <= k < end ==> (m[k] !in delim <==> Within(k, Runs(m, at, end, delim)))
  {
    RunsApart(m, at, end, delim);
    hide *;
    forall k | at <= k < end
      ensures m[k] !in delim <==> Within(k, Runs(m, at, end, delim))
    {
      RunsCover(m, at, end, delim, k);
    }
  }

  lemma {:induction false} SkipSame(m: seq<nat>, n: seq<nat>, at: nat, delim: seq<nat>, inside: bool)
    requires |m| == |n| && forall k :: at <= k < |m| ==> m[k] == n[k]
    ensures Skip(m, at, delim, inside) == Skip(n, at, delim, inside)
    decreases |m| - at
  {
    if at < |m| {
      SkipSame(m, n, at + 1, delim, inside);
    }
  }

  lemma {:induction false} NextRunSame(m: seq<nat>, n: seq<nat>, at: nat, end: nat, delim: seq<nat>)
    requires IsString(m, at, end) && |m| == |n| && forall k :: at <= k < |m| ==> m[k] == n[k]
    ensures IsString(n, at, end) && NextRun(m, at, delim) == NextRun(n, at, delim)
  {
    hide Skip;
    SkipSame(m, n, at, delim, true);
    var a := Skip(m, at, delim, true);
    SkipSame(m, n, a, delim, false);
  }

  /** The tokens depend on nothing before. */
  lemma {:induction false} RunsSame(m: seq<nat>, n: seq<nat>, at: nat, end: nat, delim: seq<nat>)
    requires IsString(m, at, end) && |m| == |n| && forall k :: at <= k < |m| ==> m[k] == n[k]
    ensures IsString(n, at, end) && Runs(m, at, end, delim) == Runs(n, at, end, delim)
    decreases end - at
  {
    hide Runs, NextRun;
    var run := NextRun(m, at, delim);
    NextRunSame(m, n, at, end, delim);
    FirstRun(m, at, end, delim);
    FirstRun(n, at, end, delim);
    if run.start < run.stop < end {
      RunsSame(m, n, run.stop + 1, end, delim);
    }
  }

  // ---------------------------------------------------------------- the two tokenizers

  /** A call with the place to go on from: the token, the buffer and the next such place. Going on stops at `end`. */
  datatype Called = Called(token: Option<nat>, m: seq<nat>, next: Option<nat>)

  /** The buffer with the delimiter after a token overwritten. */
  function Cut(m: seq<nat>, run: Run): seq<nat> {
    if run.start < run.stop < |m| then m[run.stop := 0] else m
  }

  ghost function Call(m: seq<nat>, from: Option<nat>, end: nat, delim: seq<nat>): Called
    requires from.Some? ==> IsString(m, from.value, end)
  {
    if from.None? then Called(None, m, None)
    else
      var run := NextRun(m, from.value, delim);
      Called(if run.start == run.stop then None else Some(run.start), Cut(m, run),
             if run.start < run.stop < end then Some(run.stop + 1) else None)
  }

  /** `strtok` keeps the place to go on from in a static variable. */
  class Tokenizer {
    var p: Option<nat>

    method Strtok(m: array<nat>, str: Option<nat>, delim: seq<nat>, ghost end: nat) returns (token: Option<nat>)
      requires IsSet(delim)
      requires var from := if str.Some? then str else p; from.Some? ==> IsString(m[..], from.value, end)
      modifies this, m
      ensures Called(token, m[..], p) == Call(old(m[..]), if str.Some? then str else old(p), end, delim)
    {
      hide Skip;
      if str.Some? {
        p := str;
      } else if p.None? {
        return None;
      }
      ghost var from := p.value;
      SkipMeaning(m[..], from, delim, true, end);
      SkipMeaning(m[..], Skip(m[..], from, delim, true), delim, false, end);
      var n := Strspn(m, p.value, delim, end);
      var s := p.value + n;
      n := Strcspn(m, s, delim, end);
      p := Some(s + n);
      if p == Some(s) {
        p := None;
        return None;
      }
      if m[p.value] != 0 {
        m[p.value] := 0;
        p := Some(p.value + 1);
      } else {
        assert m[..] == m[..][p.value := 0];
        p := None;
      }
      return Some(s);
    }
  }

  /** `strtok_r` keeps it where the caller says, and stays at the end of the string. */
  method StrtokR(m: array<nat>, str: Option<nat>, delim: seq<nat>, saved: nat, ghost end: nat)
      returns (token: Option<nat>, saved': nat)
    requires IsSet(delim) && IsString(m[..], if str.Some? then str.value else saved, end)
    modifies m
    ensures var c := Call(old(m[..]), Some(if str.Some? then str.value else saved), end, delim);
            token == c.token && m[..] == c.m && saved' == if c.next.Some? then c.next.value else end
  {
    hide Skip;
    var s := if str.Some? then str.value else saved;
    SkipMeaning(m[..], s, delim, true, end);
    SkipMeaning(m[..], Skip(m[..], s, delim, true), delim, false, end);
    var n := Strspn(m, s, delim, end);
    s := s + n;
    if m[s] == 0 {
      return None, s;
    }
    var found := Strpbrk(m, s, delim, end);
    if found.None? {
      saved' := Lfind(m, s, 0, end);
      assert m[..] == m[..][end := 0];
    } else {
      m[found.value] := 0;
      saved' := found.value + 1;
    }
    return Some(s), saved';
  }

  // ---------------------------------------------------------------- one call after the other

  /** The tokens until there is none, and the buffer then. */
  datatype Tokens = Tokens(starts: seq<nat>, m: seq<nat>)

  lemma CallKeeps(m: seq<nat>, at: nat, end: nat, delim: seq<nat>)
    requires IsString(m, at, end)
    ensures var c, run := Call(m, Some(at), end, delim), NextRun(m, at, delim);
            at <= run.start <= run.stop <= end && (run.start == run.stop ==> run.start == end)
            && |c.m| == |m| && c.m[end] == 0 && (c.next.Some? ==> c.next.value > at && IsString(c.m, c.next.value, end))
            && forall k :: 0 <= k < |m| ==> c.m[k] == if k == run.stop && run.start < run.stop then 0 else m[k]
  {
    hide Skip;
    var run := NextRun(m, at, delim);
    SkipMeaning(m, at, delim, true, end);
    SkipMeaning(m, run.start, delim, false, end);
  }

  /** All calls of `strtok`, the first with the string, the others without. */
  ghost function AllStrtok(m: seq<nat>, from: Option<nat>, end: nat, delim: seq<nat>): Tokens
    requires from.Some? ==> IsString(m, from.value, end)
    decreases if from.Some? then end - from.value + 1 else 0
  {
    var c := Call(m, from, end, delim);
    if c.token.None? then Tokens([], c.m)
    else
      CallKeeps(m, from.value, end, delim);
      var rest := AllStrtok(c.m, c.next, end, delim);
      Tokens([c.token.value] + rest.starts, rest.m)
  }

  /** All calls of `strtok_r`. */
  ghost function AllStrtokR(m: seq<nat>, from: nat, end: nat, delim: seq<nat>): Tokens
    requires IsString(m, from, end)
    decreases end - from, 0
  {
    var c := Call(m, Some(from), end, delim);
    if c.token.None? then Tokens([], c.m)
    else
      CallKeeps(m, from, end, delim);
      var rest := AllStrtokR(c.m, if c.next.Some? then c.next.value else end, end, delim);
      Tokens([c.token.value] + rest.starts, rest.m)
  }

  lemma AtTheEnd(m: seq<nat>, end: nat, delim: seq<nat>)
    requires end < |m| && m[end] == 0
    ensures Call(m, Some(end), end, delim) == Called(None, m, None)
  {
  }

  /** Though one forgets its place at the end and the other stays there, the two find the same tokens. */
  lemma {:induction false} TheTwoAgree(m: seq<nat>, at: nat, end: nat, delim: seq<nat>)
    requires IsString(m, at, end)
    ensures AllStrtok(m, Some(at), end, delim) == AllStrtokR(m, at, end, delim)
    decreases end - at
  {
    var c := Call(m, Some(at), end, delim);
    CallKeeps(m, at, end, delim);
    if c.token.Some? {
      if c.next.Some? {
        TheTwoAgree(c.m, c.next.value, end, delim);
      } else {
        AtTheEnd(c.m, end, delim);
      }
    }
  }

  // ---------------------------------------------------------------- what they find

  function Starts(runs: seq<Run>): (r: seq<nat>)
    ensures |r| == |runs|
  {
    seq(|runs|, i requires 0 <= i < |runs| => runs[i].start)
  }

  ghost predicate StopsAt(k: nat, runs: seq<Run>) {
    exists i :: 0 <= i < |runs| && runs[i].stop == k
  }

  /** `n` is `m` with a zero behind every token. */
  ghost predicate CutUp(m: seq<nat>, n: seq<nat>, runs: seq<Run>) {
    |n| == |m| && forall k :: 0 <= k < |m| ==> n[k] == if StopsAt(k, runs) then 0 else m[k]
  }

  lemma StopsFirst(k: nat, run: Run, rest: seq<Run>)
    ensures StopsAt(k, [run] + rest) <==> run.stop == k || StopsAt(k, rest)
    ensures !StopsAt(k, [])
  {
    var runs := [run] + rest;
    assert runs[0] == run && forall i :: 0 <= i < |rest| ==> runs[i + 1] == rest[i];
  }

  lemma CutUpMore(m: seq<nat>, c: seq<nat>, n: seq<nat>, run: Run, rest: seq<Run>)
    requires |c| == |m| && forall k :: 0 <= k < |m| ==> c[k] == if k == run.stop then 0 else m[k]
    requires CutUp(c, n, rest)
    ensures CutUp(m, n, [run] + rest)
  {
    forall k | 0 <= k < |m|
      ensures n[k] == if StopsAt(k, [run] + rest) then 0 else m[k]
    {
      StopsFirst(k, run, rest);
    }
  }

  lemma CutUpNothing(m: seq<nat>, run: Run)
    ensures CutUp(m, m, [])
  {
    forall k | 0 <= k < |m|
      ensures !StopsAt(k, [])
    {
      StopsFirst(k, run, []);
    }
  }

  lemma StartsFirst(run: Run, rest: seq<Run>)
    ensures Starts([run] + rest) == [run.start] + Starts(rest)
  {
  }

  lemma RunsAtEnd(m: seq<nat>, end: nat, delim: seq<nat>)
    requires end < |m| && m[end] == 0
    ensures Runs(m, end, end, delim) == []
  {
  }

  /** Called until it returns 0, `strtok_r`, and so `strtok`, finds all tokens of the string as it was, in order. */
  lemma {:induction false} AllCallsFindRuns(m: seq<nat>, at: nat, end: nat, delim: seq<nat>)
    requires IsString(m, at, end)
    ensures var all := AllStrtokR(m, at, end, delim);
            all.starts == Starts(Runs(m, at, end, delim)) && CutUp(m, all.m, Runs(m, at, end, delim))
    decreases end - at
  {
    var c, run := Call(m, Some(at), end, delim), NextRun(m, at, delim);
    CallKeeps(m, at, end, delim);
    if run.start == run.stop {
      CutUpNothing(m, run);
    } else {
      var next := if run.stop < end then run.stop + 1 else end;
      var rest := if run.stop < end then Runs(m, next, end, delim) else [];
      assert Runs(m, at, end, delim) == [run] + rest;
      RunsSame(m, c.m, next, end, delim);
      AllCallsFindRuns(c.m, next, end, delim);
      RunsAtEnd(c.m, end, delim);
      StartsFirst(run, rest);
      CutUpMore(m, c.m, AllStrtokR(c.m, next, end, delim).m, run, rest);
    }
  }

  lemma NoStopInside(runs: seq<Run>, at: nat, end: nat, i: nat, k: nat)
    requires Apart(runs, at, end) && i < |runs| && runs[i].start <= k < runs[i].stop
    ensures !StopsAt(k, runs)
  {
    forall j | 0 <= j < |runs|
      ensures runs[j].stop != k
    {
      assert i < j ==> runs[i].stop < runs[j].start;
    }
  }

  /** And every token is left a string of its own, with the characters it had. */
  lemma TokensIntact(m: seq<nat>, n: seq<nat>, at: nat, end: nat, delim: seq<nat>, i: nat)
    requires IsString(m, at, end) && CutUp(m, n, Runs(m, at, end, delim)) && i < |Runs(m, at, end, delim)|
    ensures var run := Runs(m, at, end, delim)[i];
            IsString(n, run.start, run.stop) && n[run.start..run.stop] == m[run.start..run.stop]
  {
    hide Runs;
    RunsApart(m, at, end, delim);
    var runs := Runs(m, at, end, delim);
    forall k | runs[i].start <= k < runs[i].stop
      ensures !StopsAt(k, runs)
    {
      NoStopInside(runs, at, end, i, k);
    }
    assert StopsAt(runs[i].stop, runs);
  }
}
