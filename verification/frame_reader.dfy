/** WSConn.Read as a step on values, and what whole runs of it deliver. */
module FrameReader {
  import opened Bytes
  import opened Frames
  import opened FrameStreams

  /** The reading half of a WSConn: bytes still on the connection, and the leftover of the
      last frame (readBuf from readPos on). */
  datatype Reader = Reader(incoming: seq<byte>, leftover: seq<byte>) {
    /** The byte stream the reader has yet to deliver. */
    function Stream(): seq<byte> {
      leftover + Decoded(incoming)
    }

    function Measure(): nat {
      |incoming| + |leftover|
    }
  }

  /** The outcome of one Read: data, pings answered, error, and the reader afterwards. */
  datatype ReadStep = ReadStep(data: seq<byte>, pings: seq<seq<byte>>, error: Option<ReadError>, after: Reader)

  /** Read with a buffer of n bytes. */
  function Read(r: Reader, n: nat): ReadStep {
    if r.leftover != [] then
      var k := Min(n, |r.leftover|);
      ReadStep(r.leftover[..k], [], None, r.(leftover := r.leftover[k..]))
    else
      var f := NextPayload(r.incoming);
      match f.result
      case Err(e) => ReadStep([], f.pings, Some(e), Reader(f.rest, []))
      case Ok(payload) =>
        var k := Min(n, |payload|);
        ReadStep(payload[..k], f.pings, None, Reader(f.rest, payload[k..]))
  }

  lemma CutAndRejoin(s: seq<byte>, k: nat, tail: seq<byte>)
    requires k <= |s|
    ensures s[..k] + (s[k..] + tail) == s + tail
  {
    assert s[..k] + s[k..] == s;
    Associative(s[..k], s[k..], tail);
  }

  /** One Read moves bytes from the stream to the caller and neither loses nor invents any;
      it fails only when the stream is exhausted. */
  lemma ReadConserves(r: Reader, n: nat)
    ensures var s := Read(r, n);
      && |s.data| <= n
      && (s.error.None? ==> s.data + s.after.Stream() == r.Stream())
      && (s.error.None? ==> s.pings + Echoes(s.after.incoming) == Echoes(r.incoming))
      && (s.error.Some? ==> r.Stream() == [] && s.data == [] && s.pings == Echoes(r.incoming))
  {
    var tail := Decoded(Read(r, n).after.incoming);
    if r.leftover != [] {
      CutAndRejoin(r.leftover, Min(n, |r.leftover|), tail);
    } else {
      NextPayloadTakes(r.incoming);
      var f := NextPayload(r.incoming);
      if f.result.Ok? {
        CutAndRejoin(f.result.value, Min(n, |f.result.value|), tail);
      }
    }
  }

  /** A Read on a reader without leftover takes the next data frame and no more, gives as much of it
      as there is room for, and keeps the rest of that frame for the Reads to come. */
  lemma OneFramePerRead(pings: seq<Frame>, f: Frame, rest: seq<byte>, n: nat)
    requires (forall g :: g in pings ==> IsPlainPing(g)) && IsData(f)
    ensures var r, k := Reader(Wire(pings) + (Encode(f) + rest), []), Min(n, |f.payload|);
      Read(r, n) == ReadStep(f.payload[..k], PingsOf(pings), None, Reader(rest, f.payload[k..]))
  {
    hide Encode, NextPayload;
    NextBehindPings(pings, Encode(f) + rest);
    NextOfFrame(f, rest);
    assert PingsOf(pings) + [] == PingsOf(pings);
  }

  lemma ReadProgress(r: Reader, n: nat)
    requires n > 0 && Read(r, n).error.None?
    ensures Read(r, n).after.Measure() < r.Measure()
  {}

  /** Reading leads to the remainder behind the frame that ends the stream, and reporting the end
      leaves just that. */
  lemma ReadRemainder(r: Reader, n: nat)
    ensures var s := Read(r, n);
      if s.error.None? then Remainder(s.after.incoming) == Remainder(r.incoming)
      else s.after == Reader(Remainder(r.incoming), [])
  {
    hide NextPayload, Remainder;
    NextPayloadRemainder(r.incoming);
  }

  /** The outcome of a list of Reads, stopped at the first error. */
  datatype Run = Run(data: seq<byte>, pings: seq<seq<byte>>, error: Option<ReadError>, after: Reader)

  function Reads(r: Reader, sizes: seq<nat>): Run
    decreases |sizes|
  {
    if sizes == [] then
      Run([], [], None, r)
    else
      var s := Read(r, sizes[0]);
      if s.error.Some? then
        Run([], s.pings, s.error, s.after)
      else
        var rest := Reads(s.after, sizes[1..]);
        rest.(data := s.data + rest.data, pings := s.pings + rest.pings)
  }

  /** Refinement of a plain byte stream, for every incoming byte string and all buffer sizes:
      what the Reads returned, followed by what is still to come, is the stream. */
  lemma {:induction false} ReadsConserve(r: Reader, sizes: seq<nat>)
    ensures var run := Reads(r, sizes);
      && (run.error.None? ==> run.data + run.after.Stream() == r.Stream())
      && (run.error.None? ==> run.pings + Echoes(run.after.incoming) == Echoes(r.incoming))
      && (run.error.Some? ==> run.data == r.Stream() && run.pings == Echoes(r.incoming))
    decreases |sizes|
  {
    if sizes != [] {
      ReadConserves(r, sizes[0]);
      var s := Read(r, sizes[0]);
      if s.error.None? {
        ReadsConserve(s.after, sizes[1..]);
        var rest := Reads(s.after, sizes[1..]);
        Associative(s.data, rest.data, rest.after.Stream());
        Associative(s.pings, rest.pings, Echoes(rest.after.incoming));
      }
    }
  }

  /** Enough Reads with room for at least one byte deliver the whole stream. */
  lemma ReadsDrain(r: Reader, sizes: seq<nat>)
    requires forall n :: n in sizes ==> n > 0
    requires |sizes| > r.Measure()
    ensures Reads(r, sizes).error.Some? && Reads(r, sizes).data == r.Stream()
  {
    ReadsReachEnd(r, sizes);
    ReadsConserve(r, sizes);
  }

  lemma {:induction false} ReadsReachEnd(r: Reader, sizes: seq<nat>)
    requires forall n :: n in sizes ==> n > 0
    requires |sizes| > r.Measure()
    ensures Reads(r, sizes).error.Some?
    decreases |sizes|
  {
    var s := Read(r, sizes[0]);
    if s.error.None? {
      assert sizes[0] in sizes && forall n :: n in sizes[1..] ==> n in sizes;
      ReadProgress(r, sizes[0]);
      ReadsReachEnd(s.after, sizes[1..]);
    }
  }

  /** Byte-stream transparency. A peer sends data frames and plain pings; any part of them
      arrives; any Reads follow. The bytes returned are a prefix of the bytes sent. Once everything
      has arrived the pings answered are a prefix of the pings sent, and data and pings are
      complete when the reader is empty or has reported the end of the stream. */
  lemma Transparency(fs: seq<Frame>, arrived: seq<byte>, sizes: seq<nat>)
    requires AllTransparent(fs) && arrived <= Wire(fs)
    ensures var run := Reads(Reader(arrived, []), sizes);
      && run.data <= DataOf(fs)
      && (arrived == Wire(fs) ==> run.pings <= PingsOf(fs))
      && (arrived == Wire(fs) && (run.error.Some? || run.after == Reader([], [])) ==>
            run.data == DataOf(fs) && run.pings == PingsOf(fs))
  {
    hide Decoded, Echoes, Reads, Wire, PayloadsOf, PingsOf;
    var r := Reader(arrived, []);
    ReadsConserve(r, sizes);
    NothingDecodes();
    FramesDecode(fs, []);
    WithNothing(Wire(fs));
    WithNothing(DataOf(fs));
    WithNothing(PingsOf(fs));
    WithNothing(Decoded(arrived));
    var more := Wire(fs)[|arrived|..];
    assert arrived + more == Wire(fs);
    DecodedMonotone(arrived, more);
    var run := Reads(r, sizes);
    if run.error.None? {
      assert run.data <= Decoded(arrived);
      assert run.after == Reader([], []) ==> run.after.Stream() == [];
    }
  }

  lemma WithNothing<T>(s: seq<T>)
    ensures s + [] == s && [] + s == s
  {}
}
