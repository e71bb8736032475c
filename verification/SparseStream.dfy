/** Downloading a sparse image: pieces of any length are gathered into writes of whole chunks. */
module SparseStream {
  import opened Bytes

  const CHUNK := 1024

  ghost predicate WholeChunks(w: seq<Byte>) { |w| > 0 && |w| % CHUNK == 0 }

  ghost predicate AllWhole(ws: seq<seq<Byte>>) { forall i :: 0 <= i < |ws| ==> WholeChunks(ws[i]) }

  ghost predicate AllTrue(s: seq<bool>) { forall i :: 0 <= i < |s| ==> s[i] }

  /** The writes and what waits are the input in order, only whole chunks have gone out, and less than
      one waits. */
  ghost predicate Gathered(writes: seq<seq<Byte>>, wait: seq<Byte>, input: seq<Byte>) {
    Concat(writes) + wait == input && AllWhole(writes) && |wait| < CHUNK
  }

  lemma Wait(writes: seq<seq<Byte>>, wait: seq<Byte>, input: seq<Byte>, data: seq<Byte>)
    requires Gathered(writes, wait, input) && |wait| + |data| < CHUNK
    ensures Gathered(writes, wait + data, input + data)
  {
    hide Concat, AllWhole;
    assert Concat(writes) + (wait + data) == Concat(writes) + wait + data;
  }

  lemma Send(writes: seq<seq<Byte>>, wait: seq<Byte>, input: seq<Byte>, data: seq<Byte>)
    requires Gathered(writes, wait, input) && WholeChunks(wait + data)
    ensures Gathered(writes + [wait + data], [], input + data)
  {
    hide Concat, WholeChunks;
    ConcatSnoc(writes, wait + data);
    assert Concat(writes) + (wait + data) == Concat(writes) + wait + data;
  }

  /** As much of `n` as is whole chunks. */
  function WholePart(n: nat): (k: nat)
    ensures k <= n < k + CHUNK && k % CHUNK == 0
  {
    CHUNK * (n / CHUNK)
  }

  /** Writes that reach the device; whether one succeeds is a script of outcomes. */
  class Driver {
    var writes: seq<seq<Byte>>
    var outcomes: seq<bool>
    var tpbuf: seq<Byte>
    ghost var input: seq<Byte>      // everything handed to the callback so far

    ghost predicate Valid()
      reads this
    {
      Gathered(writes, tpbuf, input)
    }

    constructor (outcomes: seq<bool>)
      ensures Valid() && writes == [] && input == [] && this.outcomes == outcomes
    {
      writes, this.outcomes, tpbuf, input := [], outcomes, [], [];
    }

    /** An empty buffer is refused. */
    method SendBuffer(buf: seq<Byte>) returns (ok: bool)
      modifies this`writes, this`outcomes
      ensures ok ==> buf != [] && writes == old(writes) + [buf]
      ensures !ok ==> writes == old(writes)
      ensures buf != [] && old(outcomes) != [] && AllTrue(old(outcomes)) ==> ok
      ensures AllTrue(old(outcomes)) ==> AllTrue(outcomes)
      ensures |outcomes| + 1 >= |old(outcomes)|
      ensures outcomes == if buf == [] || old(outcomes) == [] then old(outcomes) else old(outcomes)[1..]
    {
      if buf == [] { return false; }
      ok := outcomes != [] && outcomes[0];
      outcomes := if outcomes == [] then [] else outcomes[1..];
      if ok { writes := writes + [buf]; }
    }

    /** Takes one piece: fills up the waiting chunk, sends what is whole, keeps the rest. */
    method SparseWriteCallback(data: seq<Byte>) returns (ok: bool)
      requires Valid()
      modifies this
      ensures ok ==> Valid() && input == old(input) + data && old(writes) <= writes
      ensures AllTrue(old(outcomes)) && |old(outcomes)| >= 2 ==> ok
      ensures AllTrue(old(outcomes)) ==> AllTrue(outcomes)
      ensures |outcomes| + 2 >= |old(outcomes)|
    {
      assert |tpbuf| < CHUNK;
      hide Gathered, AllTrue, Concat;
      var toWrite := Min(CHUNK - |tpbuf|, |data|);
      ghost var wait, before := tpbuf, input;
      tpbuf := tpbuf + data[..toWrite];
      input := input + data;
      if |tpbuf| < CHUNK {
        assert data[..toWrite] == data;
        Wait(writes, wait, before, data);
        return true;
      }
      ok := SendBuffer(tpbuf);
      if !ok { return; }
      Send(old(writes), wait, before, data[..toWrite]);
      tpbuf := [];
      assert before + data[..toWrite] + data[toWrite..] == input;
      ok := SendRest(data[toWrite..], before + data[..toWrite]);
    }

    /** What is left of a piece after a chunk was filled up: whole chunks go out, the rest waits. */
    method SendRest(data: seq<Byte>, ghost before: seq<Byte>) returns (ok: bool)
      requires tpbuf == [] && Gathered(writes, [], before) && input == before + data
      modifies this`writes, this`outcomes, this`tpbuf
      ensures ok ==> Valid() && old(writes) <= writes
      ensures AllTrue(old(outcomes)) && |old(outcomes)| >= 1 ==> ok
      ensures AllTrue(old(outcomes)) ==> AllTrue(outcomes)
      ensures |outcomes| + 1 >= |old(outcomes)|
    {
      hide Gathered, AllTrue, Concat, WholePart;
      var nbytes := WholePart(|data|);
      ghost var sent := before;
      ok := true;
      if nbytes > 0 {
        ok := SendBuffer(data[..nbytes]);
        if !ok { return; }
        assert [] + data[..nbytes] == data[..nbytes];
        Send(old(writes), [], before, data[..nbytes]);
        sent := before + data[..nbytes];
      }
      if |data| - nbytes > 0 { tpbuf := data[nbytes..]; }
      assert [] + data[nbytes..] == data[nbytes..];
      Wait(writes, [], sent, data[nbytes..]);
      assert sent + data[nbytes..] == before + data;
    }

    /** A whole download: any pieces, then the flush. On success exactly the input was written, in order,
        without an empty write, and every write but the last is whole chunks; if no write fails it
        succeeds. */
    method Download(pieces: seq<seq<Byte>>) returns (ok: bool)
      requires Valid() && writes == [] && input == []
      modifies this
      ensures ok ==>
                && Concat(writes) == Concat(pieces)
                && (forall i :: 0 <= i < |writes| ==> writes[i] != [])
                && (forall i :: 0 <= i < |writes| - 1 ==> WholeChunks(writes[i]))
      ensures AllTrue(old(outcomes)) && |old(outcomes)| > 2 * |pieces| ==> ok
    {
      for i := 0 to |pieces|
        invariant Valid() && input == Concat(pieces[..i])
        invariant AllTrue(old(outcomes)) ==> AllTrue(outcomes)
        invariant |outcomes| + 2 * i >= |old(outcomes)|
      {
        ok := SparseWriteCallback(pieces[i]);
        if !ok { return; }
        assert pieces[..i + 1] == pieces[..i] + [pieces[i]];
        ConcatSnoc(pieces[..i], pieces[i]);
      }
      assert pieces[..|pieces|] == pieces;
      if tpbuf != [] {
        ghost var w := writes;
        ok := SendBuffer(tpbuf);
        if !ok { return; }
        ConcatSnoc(w, tpbuf);
      }
      ok := true;
    }
  }
}
