/**
 Which places of its input the LZ4 decoder reads, and that nothing else matters to it.
 */
module Lz4Reads {
  import opened Lz77
  import opened Lz4Format

  /** Where a copy in strides of eight stops reading; it makes at least one. */
  ghost function WildEnd(from: nat, len: nat): nat {
    from + 8 * (if len == 0 then 1 else (len + 7) / 8)
  }

  function Max(a: nat, b: nat): nat {
    if a < b then b else a
  }

  /** One past the highest place of `s` that is read from position `ip` on: the length bytes,
      the literals with what their copy takes along, the offsets. */
  ghost function ExtentFrom(s: Bytes, n: nat, ip: nat, out: Bytes, cap: nat): nat
    requires n <= |s| && Opens(s) && (ip > 0 ==> ip + LASTLITERALS <= n)
    decreases n - ip
  {
    var lit := Literals(s, n, ip);
    var at := lit.next + lit.len;
    if |out| + lit.len + MFLIMIT > cap || at + 2 + 1 + LASTLITERALS > n then
      if at != n || |out| + lit.len > cap then lit.next else n
    else
      var wild := WildEnd(lit.next, lit.len);
      match CopyStep(s, n, s[ip], at, out + s[lit.next..at], cap)
      case Halt(p) => Max(wild, p)
      case Next(ip', out') => Max(wild, ExtentFrom(s, n, ip', out', cap))
  }

  /** One past the highest place that the decoder reads. */
  ghost function Extent(s: Bytes, n: nat, cap: nat): nat
    requires n <= |s| && (cap > 0 ==> Opens(s))
  {
    if cap > 0 then ExtentFrom(s, n, 0, [], cap) else if n == 1 then 1 else 0
  }

  /** Behind the first sequence, all reads are inside the input. */
  lemma {:induction false} ExtentWithin(s: Bytes, n: nat, ip: nat, out: Bytes, cap: nat)
    requires n <= |s| && Opens(s) && (ip > 0 ==> ip + LASTLITERALS <= n)
    ensures Literals(s, n, ip).next <= ExtentFrom(s, n, ip, out, cap) <= Max(n, Literals(s, n, ip).next)
    decreases n - ip
  {
    hide Literals, CopyStep, WildEnd, LitRun, MatchRun, MatchCopy;
    var lit := Literals(s, n, ip);
    var at := lit.next + lit.len;
    if |out| + lit.len + MFLIMIT <= cap && at + 2 + 1 + LASTLITERALS <= n {
      WildWithin(lit.next, lit.len);
      var step := CopyStep(s, n, s[ip], at, out + s[lit.next..at], cap);
      CopyStepWithin(s, n, s[ip], at, out + s[lit.next..at], cap);
      if step.Next? {
        ExtentWithin(s, n, step.ip, step.out, cap);
        LiteralsWithin(s, n, step.ip);
      }
    }
  }

  lemma WildWithin(from: nat, len: nat)
    ensures from + len <= WildEnd(from, len) && from + 8 <= WildEnd(from, len) <= from + len + 8
  {}

  lemma LiteralsWithin(s: Bytes, n: nat, ip: nat)
    requires n <= |s| && Opens(s) && (ip > 0 ==> ip + LASTLITERALS <= n)
    ensures Literals(s, n, ip).next <= n <==> n > 0 && (n == 1 ==> s[0] < 240)
  {}

  lemma CopyStepWithin(s: Bytes, n: nat, token: byte, at: nat, out: Bytes, cap: nat)
    requires n <= |s| && at + 2 + LASTLITERALS < n
    ensures var r := CopyStep(s, n, token, at, out, cap); r.Halt? ==> at + 2 <= r.at <= n
  {
    hide MatchCopy;
    if token % 16 == ML_MASK { MatchRunWithin(s, n, at + 2); }
  }

  lemma {:induction false} MatchRunWithin(s: Bytes, n: nat, ip: nat)
    requires n <= |s| && ip < n
    ensures var r := MatchRun(s, n, ip); r.Stuck? ==> ip < r.at <= n
    decreases n - ip
  {
    if ip + 1 + LASTLITERALS <= n && s[ip] == 255 { MatchRunWithin(s, n, ip + 1); }
  }

  /** The decoder reads beyond the `n` bytes of its input exactly when there is room for
      output and the input is empty, or is one byte that asks for another. */
  lemma ReadsInside(s: Bytes, n: nat, cap: nat)
    requires n <= |s| && (cap > 0 ==> Opens(s))
    ensures Extent(s, n, cap) <= n <==> !(cap > 0 && (n == 0 || (n == 1 && s[0] >= 240)))
    ensures Extent(s, n, cap) <= |s|
  {
    if cap > 0 {
      LiteralsWithin(s, n, 0);
      ExtentWithin(s, n, 0, [], cap);
    }
  }

  ghost predicate Agree(s: Bytes, t: Bytes, end: nat) {
    end <= |s| && end <= |t| && forall k :: 0 <= k < end ==> s[k] == t[k]
  }

  lemma {:induction false} LitRunSame(s: Bytes, t: Bytes, n: nat, ip: nat)
    requires n <= |s| && n <= |t| && ip < |s| && Agree(s, t, LitRun(s, n, ip).next)
    ensures LitRun(t, n, ip) == LitRun(s, n, ip)
    decreases |s| - ip
  {
    if s[ip] == 255 && ip + 1 < n - RUN_MASK { LitRunSame(s, t, n, ip + 1); }
  }

  lemma {:induction false} MatchRunSame(s: Bytes, t: Bytes, n: nat, ip: nat)
    requires n <= |s| && n <= |t| && ip < n
    requires var r := MatchRun(s, n, ip); Agree(s, t, if r.Stuck? then r.at else r.next)
    ensures MatchRun(t, n, ip) == MatchRun(s, n, ip)
    decreases n - ip
  {
    MatchRunWithin(s, n, ip);
    if ip + 1 + LASTLITERALS <= n && s[ip] == 255 { MatchRunSame(s, t, n, ip + 1); }
  }

  lemma LiteralsSame(s: Bytes, t: Bytes, n: nat, ip: nat)
    requires n <= |s| && n <= |t| && ip < |s| && (ip == 0 ==> Opens(s)) && (ip > 0 ==> ip + LASTLITERALS <= n)
    requires Agree(s, t, Literals(s, n, ip).next)
    ensures s[ip] == t[ip] && (ip == 0 ==> Opens(t)) && Literals(t, n, ip) == Literals(s, n, ip)
  {
    if s[ip] / 16 == RUN_MASK { LitRunSame(s, t, n, ip + 1); }
  }

  lemma CopyStepSame(s: Bytes, t: Bytes, n: nat, token: byte, at: nat, out: Bytes, cap: nat)
    requires n <= |s| && n <= |t| && at + 2 + LASTLITERALS < n
    requires var r := CopyStep(s, n, token, at, out, cap); Agree(s, t, if r.Halt? then r.at else r.ip)
    ensures CopyStep(t, n, token, at, out, cap) == CopyStep(s, n, token, at, out, cap)
  {
    hide MatchCopy, MatchRun, Word;
    CopyStepWithin(s, n, token, at, out, cap);
    if Word(s[at], s[at + 1]) <= |out| && token % 16 == ML_MASK {
      MatchRunWithin(s, n, at + 2);
      MatchRunSame(s, t, n, at + 2);
    }
  }

  /** What the decoder does not read does not matter to it. */
  lemma {:induction false} SameFrom(s: Bytes, t: Bytes, n: nat, ip: nat, out: Bytes, cap: nat)
    requires n <= |s| && n <= |t| && Opens(s) && Opens(t) && (ip > 0 ==> ip + LASTLITERALS <= n)
    requires Agree(s, t, ExtentFrom(s, n, ip, out, cap))
    ensures DecodeFrom(t, n, ip, out, cap) == DecodeFrom(s, n, ip, out, cap)
    ensures ExtentFrom(t, n, ip, out, cap) == ExtentFrom(s, n, ip, out, cap)
    decreases n - ip
  {
    hide Literals, CopyStep, WildEnd, LitRun, MatchRun, MatchCopy;
    ExtentWithin(s, n, ip, out, cap);
    LiteralsSame(s, t, n, ip);
    var lit := Literals(s, n, ip);
    var at := lit.next + lit.len;
    if |out| + lit.len + MFLIMIT > cap || at + 2 + 1 + LASTLITERALS > n {
      if at == n && |out| + lit.len <= cap { assert s[lit.next..n] == t[lit.next..n]; }
    } else {
      WildWithin(lit.next, lit.len);
      assert s[lit.next..at] == t[lit.next..at];
      var out' := out + s[lit.next..at];
      var step := CopyStep(s, n, s[ip], at, out', cap);
      if step.Next? { ExtentWithin(s, n, step.ip, step.out, cap); }
      CopyStepSame(s, t, n, s[ip], at, out', cap);
      if step.Next? { SameFrom(s, t, n, step.ip, step.out, cap); }
    }
  }

  /** Result and reads depend on the bytes below the extent only. */
  lemma ReadsAll(s: Bytes, t: Bytes, n: nat, cap: nat)
    requires n <= |s| && n <= |t| && (cap > 0 ==> Opens(s) && Opens(t)) && Agree(s, t, Extent(s, n, cap))
    ensures Decode(t, n, cap) == Decode(s, n, cap) && Extent(t, n, cap) == Extent(s, n, cap)
  {
    if cap > 0 { SameFrom(s, t, n, 0, [], cap); }
  }

  /** For an empty input, what is there shows in the return value. */
  lemma ReadsBeyond(cap: nat)
    requires cap > 0
    ensures ReturnValue(Decode([0], 0, cap)) == -2 && ReturnValue(Decode([240, 0], 0, cap)) == -3
  {
    assert Literals([0], 0, 0) == Run(0, 1);
    assert Literals([240, 0], 0, 0) == Run(15, 2);
  }
}
