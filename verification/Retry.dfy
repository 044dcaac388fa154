// Requests on a memory that are repeated: a write done once more after anything
// else happened to it has the same effect as if only the repetition had run.
module Retry {
  import opened Buffers
  import opened Sequences

  // An access on a buffer of a given handle, as it arrives at a device.
  datatype Request = Request(handle: int, access: Access)

  function ExecuteAll(m: Memory, requests: seq<Request>): Memory
    decreases |requests|
  {
    if requests == [] then m
    else ExecuteAll(Execute(m, requests[0].handle, requests[0].access), requests[1..])
  }

  // Requests run one after the other, each on the memory the last one left.
  lemma {:induction false} RunsInOrder(m: Memory, first: seq<Request>, r: Request, rest: seq<Request>)
    ensures ExecuteAll(m, []) == m
    ensures ExecuteAll(m, first + [r] + rest) ==
            ExecuteAll(Execute(ExecuteAll(m, first), r.handle, r.access), rest)
    decreases |first|
  {
    hide Execute;
    var all := first + [r] + rest;
    if first == [] {
      assert all[0] == r && all[1..] == rest;
    } else {
      assert all[0] == first[0] && all[1..] == first[1..] + [r] + rest;
      RunsInOrder(Execute(m, first[0].handle, first[0].access), first[1..], r, rest);
    }
  }

  // `a` is what `b` becomes if `w` had run before: the same buffers, except that
  // the bits `w` covers may differ and the buffer reaches as far as `w` does.
  ghost predicate DifferAtMostBy(w: Request, a: Memory, b: Memory) {
    && a.Keys == b.Keys + {w.handle}
    && (forall h | h in b && h != w.handle :: a[h] == b[h])
    && |BufferOf(a, w.handle)| == Max(|BufferOf(b, w.handle)|, End(w.access))
    && forall i: nat, k: nat | k < 8 && !Covers(w.access, i, k) ::
         BitAt(BufferOf(a, w.handle), i, k) == BitAt(BufferOf(b, w.handle), i, k)
  }

  lemma RunningFirstDiffers(w: Request, m: Memory)
    ensures DifferAtMostBy(w, Execute(m, w.handle, w.access), m)
  {
    forall i: nat, k: nat | k < 8 && !Covers(w.access, i, k)
      ensures BitAt(After(BufferOf(m, w.handle), w.access), i, k) == BitAt(BufferOf(m, w.handle), i, k)
    {
      AccessOverlays(BufferOf(m, w.handle), w.access, i, k);
    }
  }

  lemma DifferenceKept(w: Request, a: Memory, b: Memory, r: Request)
    requires DifferAtMostBy(w, a, b)
    ensures DifferAtMostBy(w, Execute(a, r.handle, r.access), Execute(b, r.handle, r.access))
  {
    if r.handle == w.handle {
      var x, y := BufferOf(a, w.handle), BufferOf(b, w.handle);
      AccessOverlays(x, r.access, 0, 0);
      AccessOverlays(y, r.access, 0, 0);
      forall i: nat, k: nat | k < 8 && !Covers(w.access, i, k)
        ensures BitAt(After(x, r.access), i, k) == BitAt(After(y, r.access), i, k)
      {
        AccessOverlays(x, r.access, i, k);
        AccessOverlays(y, r.access, i, k);
      }
    }
  }

  lemma RepeatingErasesDifference(w: Request, a: Memory, b: Memory)
    requires DifferAtMostBy(w, a, b)
    ensures Execute(a, w.handle, w.access) == Execute(b, w.handle, w.access)
  {
    var x, y := BufferOf(a, w.handle), BufferOf(b, w.handle);
    AccessOverlays(x, w.access, 0, 0);
    AccessOverlays(y, w.access, 0, 0);
    forall i: nat, k: nat | k < 8
      ensures BitAt(After(x, w.access), i, k) == BitAt(After(y, w.access), i, k)
    {
      AccessOverlays(x, w.access, i, k);
      AccessOverlays(y, w.access, i, k);
    }
    BuffersAreBits(After(x, w.access), After(y, w.access));
    var p, q := Execute(a, w.handle, w.access), Execute(b, w.handle, w.access);
    assert p.Keys == q.Keys;
    assert forall h | h in p :: p[h] == q[h];
  }

  lemma {:induction false} DifferenceKeptByAll(w: Request, a: Memory, b: Memory, between: seq<Request>)
    requires DifferAtMostBy(w, a, b)
    ensures DifferAtMostBy(w, ExecuteAll(a, between), ExecuteAll(b, between))
    decreases |between|
  {
    if between != [] {
      var r := between[0];
      DifferenceKept(w, a, b, r);
      DifferenceKeptByAll(w, Execute(a, r.handle, r.access), Execute(b, r.handle, r.access), between[1..]);
    }
  }

  // `w` before and after any other requests leaves exactly the memory that `w`
  // after them leaves, byte for byte, whatever buffers they touch.
  lemma RetryAbsorbed(w: Request, m: Memory, between: seq<Request>)
    ensures var first := ExecuteAll(Execute(m, w.handle, w.access), between);
            var without := ExecuteAll(m, between);
            Execute(first, w.handle, w.access) == Execute(without, w.handle, w.access)
  {
    RunningFirstDiffers(w, m);
    DifferenceKeptByAll(w, Execute(m, w.handle, w.access), m, between);
    RepeatingErasesDifference(w, ExecuteAll(Execute(m, w.handle, w.access), between), ExecuteAll(m, between));
  }

  // Nothing in between: executing a request twice is executing it once, with
  // the same answer both times.
  lemma TwiceIsOnce(w: Request, m: Memory)
    ensures var once := Execute(m, w.handle, w.access);
            && Execute(once, w.handle, w.access) == once
            && Answer(BufferOf(once, w.handle), w.access) == Answer(BufferOf(m, w.handle), w.access)
  {
    RetryAbsorbed(w, m, []);
    var x, y := BufferOf(m, w.handle), After(BufferOf(m, w.handle), w.access);
    if w.access.ReadBytes? {
      assert Slice(x, w.access.index, w.access.size) == Slice(y, w.access.index, w.access.size);
    }
  }
}
