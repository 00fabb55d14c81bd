/** Crossing two inputs: parts of both in turn, up to a limit chosen at random. Random
    numbers are parameters. */
module CrossOver {
  import opened Bytes

  /** `Rand(n)` is below `n`, and zero for zero. */
  function Rand(random: nat, n: nat): (r: nat)
    ensures n > 0 ==> r < n
  {
    if n == 0 then 0 else random % n
  }

  /** `out` takes all of `a` and of `b`, each in its order. */
  ghost predicate Interleaves(out: seq<byte>, a: seq<byte>, b: seq<byte>)
    decreases |out|
  {
    if out == [] then a == [] && b == []
    else
      var n := |out| - 1;
      || (a != [] && out[n] == a[|a| - 1] && Interleaves(out[..n], a[..|a| - 1], b))
      || (b != [] && out[n] == b[|b| - 1] && Interleaves(out[..n], a, b[..|b| - 1]))
  }

  /** A part of the first input can follow. */
  lemma {:induction false} TakeFirst(out: seq<byte>, a: seq<byte>, b: seq<byte>, part: seq<byte>)
    requires Interleaves(out, a, b)
    ensures Interleaves(out + part, a + part, b)
    decreases |part|
  {
    if part == [] {
      assert out + part == out && a + part == a;
    } else {
      var k := |part| - 1;
      TakeFirst(out, a, b, part[..k]);
      assert (out + part)[..|out + part| - 1] == out + part[..k];
      assert (a + part)[..|a + part| - 1] == a + part[..k];
    }
  }

  lemma {:induction false} TakeSecond(out: seq<byte>, a: seq<byte>, b: seq<byte>, part: seq<byte>)
    requires Interleaves(out, a, b)
    ensures Interleaves(out + part, a, b + part)
    decreases |part|
  {
    if part == [] {
      assert out + part == out && b + part == b;
    } else {
      var k := |part| - 1;
      TakeSecond(out, a, b, part[..k]);
      assert (out + part)[..|out + part| - 1] == out + part[..k];
      assert (b + part)[..|b + part| - 1] == b + part[..k];
    }
  }

  lemma MoreOfFirst(before: seq<byte>, after: seq<byte>, data: seq<byte>, pos: nat, n: nat, b: seq<byte>)
    requires pos + n <= |data| && Interleaves(before, data[..pos], b) && after == before + data[pos..pos + n]
    ensures Interleaves(after, data[..pos + n], b)
  {
    TakeFirst(before, data[..pos], b, data[pos..pos + n]);
    assert data[..pos] + data[pos..pos + n] == data[..pos + n];
  }

  lemma MoreOfSecond(before: seq<byte>, after: seq<byte>, a: seq<byte>, data: seq<byte>, pos: nat, n: nat)
    requires pos + n <= |data| && Interleaves(before, a, data[..pos]) && after == before + data[pos..pos + n]
    ensures Interleaves(after, a, data[..pos + n])
  {
    TakeSecond(before, a, data[..pos], data[pos..pos + n]);
    assert data[..pos] + data[pos..pos + n] == data[..pos + n];
  }

  /** `out` is made of a part of `a`, then one of `b`, then one of `a` again and so on, of
      the sizes in `cuts`; `x` is what is left of the one whose turn it is, `y` of the other.
      A part is empty only when its input is used up. */
  ghost predicate InTurn(out: seq<byte>, a: seq<byte>, b: seq<byte>, cuts: seq<nat>, x: seq<byte>, y: seq<byte>)
    decreases |cuts|
  {
    if cuts == [] then out == [] && x == a && y == b
    else
      var n := cuts[0];
      && n <= |a| && n <= |out| && out[..n] == a[..n] && (a != [] ==> n > 0)
      && InTurn(out[n..], b, a[n..], cuts[1..], x, y)
  }

  lemma {:induction false} NextInTurn(out: seq<byte>, a: seq<byte>, b: seq<byte>, cuts: seq<nat>,
                                      x: seq<byte>, y: seq<byte>, n: nat)
    requires InTurn(out, a, b, cuts, x, y) && n <= |x| && (x != [] ==> n > 0)
    ensures InTurn(out + x[..n], a, b, cuts + [n], y, x[n..])
    decreases |cuts|
  {
    var more := out + x[..n];
    if cuts == [] {
      assert more == x[..n] && more[n..] == [] && [n][1..] == [];
    } else {
      var m := cuts[0];
      NextInTurn(out[m..], b, a[m..], cuts[1..], x, y, n);
      assert more[m..] == out[m..] + x[..n] && more[..m] == out[..m];
      assert (cuts + [n])[1..] == cuts[1..] + [n];
    }
  }

  lemma PartInTurn(before: seq<byte>, after: seq<byte>, a: seq<byte>, b: seq<byte>, cuts: seq<nat>,
                   data: seq<byte>, pos: nat, y: seq<byte>, n: nat)
    requires pos + n <= |data| && InTurn(before, a, b, cuts, data[pos..], y) && (pos < |data| ==> n > 0)
    requires after == before + data[pos..pos + n]
    ensures InTurn(after, a, b, cuts + [n], y, data[pos + n..])
  {
    NextInTurn(before, a, b, cuts, data[pos..], y, n);
    assert data[pos..][..n] == data[pos..pos + n] && data[pos..][n..] == data[pos + n..];
  }

  ghost predicate Crossing(out: seq<byte>, data1: seq<byte>, data2: seq<byte>, cuts: seq<nat>, pos1: nat, pos2: nat,
                           first: bool)
  {
    && pos1 <= |data1| && pos2 <= |data2|
    && (forall u {:trigger Interleaves(u, data1[..pos1], data2[..pos2])} ::
          u == out ==> Interleaves(u, data1[..pos1], data2[..pos2]))
    && (forall u {:trigger Turns(u, data1, data2, cuts, pos1, pos2, first)} ::
          u == out ==> Turns(u, data1, data2, cuts, pos1, pos2, first))
  }

  ghost predicate Turns(out: seq<byte>, data1: seq<byte>, data2: seq<byte>, cuts: seq<nat>, pos1: nat, pos2: nat,
                        first: bool)
    requires pos1 <= |data1| && pos2 <= |data2|
  {
    if first then InTurn(out, data1, data2, cuts, data1[pos1..], data2[pos2..])
    else InTurn(out, data1, data2, cuts, data2[pos2..], data1[pos1..])
  }

  lemma CrossingStarts(out: seq<byte>, data1: seq<byte>, data2: seq<byte>)
    requires out == []
    ensures Crossing(out, data1, data2, [], 0, 0, true)
  {
    assert data1[0..] == data1 && data2[0..] == data2;
  }

  lemma CrossFirst(before: seq<byte>, after: seq<byte>, data1: seq<byte>, data2: seq<byte>, cuts: seq<nat>,
                   pos1: nat, pos2: nat, n: nat)
    requires Crossing(before, data1, data2, cuts, pos1, pos2, true)
    requires pos1 + n <= |data1| && (pos1 < |data1| ==> n > 0) && after == before + data1[pos1..pos1 + n]
    ensures Crossing(after, data1, data2, cuts + [n], pos1 + n, pos2, false)
  {
    assert Interleaves(before, data1[..pos1], data2[..pos2]) && Turns(before, data1, data2, cuts, pos1, pos2, true);
    MoreOfFirst(before, after, data1, pos1, n, data2[..pos2]);
    PartInTurn(before, after, data1, data2, cuts, data1, pos1, data2[pos2..], n);
  }

  lemma CrossSecond(before: seq<byte>, after: seq<byte>, data1: seq<byte>, data2: seq<byte>, cuts: seq<nat>,
                    pos1: nat, pos2: nat, n: nat)
    requires Crossing(before, data1, data2, cuts, pos1, pos2, false)
    requires pos2 + n <= |data2| && (pos2 < |data2| ==> n > 0) && after == before + data2[pos2..pos2 + n]
    ensures Crossing(after, data1, data2, cuts + [n], pos1, pos2 + n, true)
  {
    assert Interleaves(before, data1[..pos1], data2[..pos2]) && Turns(before, data1, data2, cuts, pos1, pos2, false);
    MoreOfSecond(before, after, data1[..pos1], data2, pos2, n);
    PartInTurn(before, after, data1, data2, cuts, data2, pos2, data1[pos1..], n);
  }

  lemma Crossed(out: seq<byte>, data1: seq<byte>, data2: seq<byte>, cuts: seq<nat>, pos1: nat, pos2: nat, first: bool)
    requires Crossing(out, data1, data2, cuts, pos1, pos2, first)
    ensures exists x, y :: InTurn(out, data1, data2, cuts, x, y)
    ensures Interleaves(out, data1[..pos1], data2[..pos2])
  {
    assert Interleaves(out, data1[..pos1], data2[..pos2]) && Turns(out, data1, data2, cuts, pos1, pos2, first);
  }

  /** The size of the next part, when there is room and data for one. */
  function PartSize(random: nat, outLeft: nat, inLeft: nat): (n: nat)
    requires outLeft > 0 && inLeft > 0
    ensures 0 < n <= outLeft && n <= inLeft
  {
    Rand(random, if outLeft < inLeft then outLeft else inLeft) + 1
  }

  /** Copy `n` bytes of `data` from `from` on to position `at` of `out`. */
  method Copy(out: array<byte>, at: nat, data: seq<byte>, from: nat, n: nat)
    requires at + n <= out.Length && from + n <= |data|
    modifies out
    ensures out[..at + n] == old(out[..at]) + data[from..from + n]
  {
    for i := 0 to n
      invariant forall k :: 0 <= k < at ==> out[k] == old(out[k])
      invariant forall k :: at <= k < at + i ==> out[k] == data[from + k - at]
    {
      out[at + i] := data[from + i];
    }
    assert out[..at] == old(out[..at]) && out[at..at + n] == data[from..from + n];
    assert out[..at + n] == out[..at] + out[at..at + n];
  }

  /** Append a part of `data` from `pos` on, unless it is used up. */
  method TakePart(out: array<byte>, size: nat, limit: nat, data: seq<byte>, pos: nat, random: nat) returns (extra: nat)
    requires size < limit <= out.Length && pos <= |data|
    modifies out
    ensures size + extra <= limit && pos + extra <= |data| && (pos < |data| ==> extra > 0)
    ensures out[..size + extra] == old(out[..size]) + data[pos..pos + extra]
  {
    extra := 0;
    if pos < |data| {
      extra := PartSize(random, limit - size, |data| - pos);
      Copy(out, size, data, pos, extra);
    }
  }

  method AppendFirst(out: array<byte>, size: nat, limit: nat, data1: seq<byte>, data2: seq<byte>, pos1: nat,
                     random: nat, ghost pos2: nat, ghost cuts: seq<nat>)
    returns (extra: nat)
    requires size < limit <= out.Length && Crossing(out[..size], data1, data2, cuts, pos1, pos2, true)
    modifies out
    ensures size + extra <= limit && pos1 + extra <= |data1| && (pos1 < |data1| ==> extra > 0)
    ensures Crossing(out[..size + extra], data1, data2, cuts + [extra], pos1 + extra, pos2, false)
  {
    ghost var before := out[..size];
    extra := TakePart(out, size, limit, data1, pos1, random);
    CrossFirst(before, out[..size + extra], data1, data2, cuts, pos1, pos2, extra);
  }

  method AppendSecond(out: array<byte>, size: nat, limit: nat, data1: seq<byte>, data2: seq<byte>, pos2: nat,
                      random: nat, ghost pos1: nat, ghost cuts: seq<nat>)
    returns (extra: nat)
    requires size < limit <= out.Length && Crossing(out[..size], data1, data2, cuts, pos1, pos2, false)
    modifies out
    ensures size + extra <= limit && pos2 + extra <= |data2| && (pos2 < |data2| ==> extra > 0)
    ensures Crossing(out[..size + extra], data1, data2, cuts + [extra], pos1, pos2 + extra, true)
  {
    ghost var before := out[..size];
    extra := TakePart(out, size, limit, data2, pos2, random);
    CrossSecond(before, out[..size + extra], data1, data2, cuts, pos1, pos2, extra);
  }

  /** For all random numbers, the result takes parts of the inputs in turn, of the first
      input first; so it interleaves a prefix of the one with a prefix of the other. It is
      exactly as long as the limit chosen, or as both inputs together when these are
      shorter. */
  method CrossOver(data1: seq<byte>, data2: seq<byte>, out: array<byte>, maxOutSize: nat, randoms: nat -> nat)
    returns (size: nat)
    requires maxOutSize <= out.Length && out.Length > 0 && (data1 != [] || data2 != [])
    modifies out
    ensures var limit := (if maxOutSize == 0 then 0 else randoms(0) % maxOutSize) + 1;
            size == if limit < |data1| + |data2| then limit else |data1| + |data2|
    ensures exists cuts, x, y :: InTurn(out[..size], data1, data2, cuts, x, y)
    ensures exists p: nat, q: nat :: p <= |data1| && q <= |data2| && Interleaves(out[..size], data1[..p], data2[..q])
  {
    var limit := Rand(randoms(0), maxOutSize) + 1;
    var calls := 1;
    size := 0;
    var pos1: nat, pos2: nat := 0, 0;
    var first := true;
    ghost var cuts: seq<nat> := [];
    CrossingStarts(out[..0], data1, data2);
    while size < limit && (pos1 < |data1| || pos2 < |data2|)
      invariant size == pos1 + pos2 <= limit && Crossing(out[..size], data1, data2, cuts, pos1, pos2, first)
      decreases limit - size, if first == (pos1 < |data1|) then 0 else 1
    {
      if first {
        var extra := AppendFirst(out, size, limit, data1, data2, pos1, randoms(calls), pos2, cuts);
        pos1, size, cuts := pos1 + extra, size + extra, cuts + [extra];
      } else {
        var extra := AppendSecond(out, size, limit, data1, data2, pos2, randoms(calls), pos1, cuts);
        pos2, size, cuts := pos2 + extra, size + extra, cuts + [extra];
      }
      calls := calls + 1;
      first := !first;
    }
    Crossed(out[..size], data1, data2, cuts, pos1, pos2, first);
  }
}
