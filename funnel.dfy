/**
 * FunnelDevice: a write-only device that hands the characters written to
 * it on to a receiver, either at once (immediate mode) or when the inner
 * buffer is flushed.
 *
 * The receiver is modelled by the sequence of blocks it has been given,
 * `delivered`; a receiver that raises an exception is not modelled.  The
 * value `Funnel` is the observable state of a device, and `WriteOf`,
 * `PutCharOf`, `FlushOf`, `FinishOf` and `PrepareOf` are its transitions;
 * the class `FunnelDevice` runs the same operations over a buffer array
 * and is proved to follow them.
 */
module Funnels {

  /** IOState */
  datatype IOState = ReadOk | ReadError | WriteOk | WriteError | EndOfFile | DeviceNotPrepared

  /** The exceptions a write can raise. */
  datatype IOError = DeviceNotPreparedError | DeviceFullError

  /** A write either returns a state or raises an exception. */
  datatype Outcome = Done(state: IOState) | Raised(error: IOError)

  /** DEFAULT_FUNNEL_BUFFER_SIZE */
  const DefaultFunnelBufferSize: nat := 4098

  /**
   * The observable state of a device: whether it holds a buffer, the
   * characters waiting in it, the dataPresent flag, the count of bytes
   * written and the blocks delivered to the receiver so far.
   */
  datatype Funnel = Funnel(prepared: bool, pending: seq<int>, dataPresent: bool,
                           bw: nat, delivered: seq<seq<int>>)

  /** A device as the constructor leaves it. */
  function NewFunnel(): Funnel
  {
    Funnel(false, [], false, 0, [])
  }

  /** flush: delivers the buffer only when dataPresent is set, then empties it. */
  function FlushOf(f: Funnel): Funnel
  {
    if f.dataPresent then f.(delivered := f.delivered + [f.pending], pending := [], dataPresent := false)
    else f
  }

  /** finish: flushes, then empties the buffer and resets the byte count. */
  function FinishOf(f: Funnel): Funnel
  {
    FlushOf(f).(pending := [], dataPresent := false, bw := 0)
  }

  /** prepare: allocates a fresh buffer; dataPresent is left as it was. */
  function PrepareOf(f: Funnel): Funnel
  {
    f.(prepared := true, pending := [])
  }

  /**
   * writeData of `bytes` to a device with buffer size `size`.  It raises
   * DeviceNotPrepared before prepare and DeviceFull when the bytes do not
   * fit, changing only the byte count; otherwise it reports WriteOk.  The
   * byte count grows by every requested byte either way.
   */
  function WriteOf(f: Funnel, size: nat, immediate: bool, bytes: seq<int>): (r: (Funnel, Outcome))
    ensures r.0.bw == f.bw + |bytes|
    ensures r.1 == Raised(DeviceNotPreparedError) <==> !f.prepared
    ensures r.1 == Raised(DeviceFullError) <==> f.prepared && |f.pending| + |bytes| > size
    ensures r.1.Raised? ==> r.0 == f.(bw := f.bw + |bytes|)
    ensures r.1.Done? ==> r.1 == Done(WriteOk) && r.0.prepared
  {
    var f1 := f.(bw := f.bw + |bytes|);
    if !f.prepared then (f1, Raised(DeviceNotPreparedError))
    else if |bytes| + |f.pending| > size then (f1, Raised(DeviceFullError))
    else
      var f2 := f1.(pending := f.pending + bytes, dataPresent := |bytes| > 0);
      (if immediate then FlushOf(f2) else f2, Done(WriteOk))
  }

  /**
   * putChar of `c`: the same checks as writeData, with a full buffer
   * refusing even one more character; a successful call reports ReadOk,
   * as the device does.
   */
  function PutCharOf(f: Funnel, size: nat, immediate: bool, c: int): (r: (Funnel, Outcome))
    ensures r.0.bw == f.bw + 1
    ensures r.1 == Raised(DeviceNotPreparedError) <==> !f.prepared
    ensures r.1 == Raised(DeviceFullError) <==> f.prepared && |f.pending| >= size
    ensures r.1.Raised? ==> r.0 == f.(bw := f.bw + 1)
    ensures r.1.Done? ==> r.1 == Done(ReadOk) && r.0.prepared
  {
    var f1 := f.(bw := f.bw + 1);
    if !f.prepared then (f1, Raised(DeviceNotPreparedError))
    else if |f.pending| >= size then (f1, Raised(DeviceFullError))
    else
      var f2 := f1.(pending := f.pending + [c], dataPresent := true);
      (if immediate then FlushOf(f2) else f2, Done(ReadOk))
  }

  /** All delivered blocks, one after the other. */
  function Flatten(d: seq<seq<int>>): seq<int>
  {
    if d == [] then [] else Flatten(d[..|d| - 1]) + d[|d| - 1]
  }

  /** Every character the device has accepted and not dropped: delivered, then pending. */
  function Accepted(f: Funnel): seq<int>
  {
    Flatten(f.delivered) + f.pending
  }

  /** Characters wait in the buffer only while dataPresent is set. */
  predicate Sound(f: Funnel)
  {
    f.pending != [] ==> f.dataPresent
  }

  // ---------------------------------------------------------------------
  // Properties of the transitions
  // ---------------------------------------------------------------------

  lemma FlattenSnoc(d: seq<seq<int>>, x: seq<int>)
    ensures Flatten(d + [x]) == Flatten(d) + x
  {
    assert (d + [x])[..|d + [x]| - 1] == d;
  }

  /**
   * An accepted write appends the bytes to what the device has accepted,
   * and a deferred write leaves them in the buffer behind the earlier ones.
   */
  lemma {:induction false} WriteKeepsOrder(f: Funnel, size: nat, immediate: bool, bytes: seq<int>)
    requires WriteOf(f, size, immediate, bytes).1.Done?
    ensures Accepted(WriteOf(f, size, immediate, bytes).0) == Accepted(f) + bytes
    ensures !immediate ==> WriteOf(f, size, immediate, bytes).0.pending == f.pending + bytes
  {
    if immediate && |bytes| > 0 {
      FlattenSnoc(f.delivered, f.pending + bytes);
    }
  }

  /** The same for putChar. */
  lemma {:induction false} PutCharKeepsOrder(f: Funnel, size: nat, immediate: bool, c: int)
    requires PutCharOf(f, size, immediate, c).1.Done?
    ensures Accepted(PutCharOf(f, size, immediate, c).0) == Accepted(f) + [c]
    ensures Sound(PutCharOf(f, size, immediate, c).0)
  {
    if immediate {
      FlattenSnoc(f.delivered, f.pending + [c]);
    }
  }

  /** Flushing never loses or reorders accepted characters. */
  lemma {:induction false} FlushKeepsOrder(f: Funnel)
    ensures Accepted(FlushOf(f)) == Accepted(f)
    ensures f.dataPresent ==> FlushOf(f).pending == [] && FlushOf(f).delivered == f.delivered + [f.pending]
    ensures !f.dataPresent ==> FlushOf(f) == f
  {
    if f.dataPresent {
      FlattenSnoc(f.delivered, f.pending);
    }
  }

  /**
   * In immediate mode a device whose buffer is empty keeps it empty: an
   * accepted non-empty write or a putChar is delivered as one block.
   */
  lemma ImmediateDelivers(f: Funnel, size: nat, bytes: seq<int>, c: int)
    requires f.pending == []
    ensures var (g, r) := WriteOf(f, size, true, bytes);
            g.pending == [] &&
            (r.Done? && bytes != [] ==> g.delivered == f.delivered + [bytes]) &&
            (r.Done? && bytes == [] ==> g.delivered == f.delivered)
    ensures var (g, r) := PutCharOf(f, size, true, c);
            g.pending == [] && (r.Done? ==> g.delivered == f.delivered + [[c]])
  {
    assert f.pending + bytes == bytes;
    assert f.pending + [c] == [c];
  }

  /**
   * finish resets the byte count and empties the buffer; when the state is
   * sound it first delivers everything still waiting.
   */
  lemma {:induction false} FinishDelivers(f: Funnel)
    requires Sound(f)
    ensures FinishOf(f).bw == 0 && FinishOf(f).pending == []
    ensures Flatten(FinishOf(f).delivered) == Accepted(f)
  {
    FlushKeepsOrder(f);
  }

  /** A non-empty accepted write leaves a sound state; an empty one only when nothing was waiting. */
  lemma WriteSound(f: Funnel, size: nat, immediate: bool, bytes: seq<int>)
    requires WriteOf(f, size, immediate, bytes).1.Done?
    ensures Sound(WriteOf(f, size, immediate, bytes).0) <==> bytes != [] || f.pending == []
  {
  }

  /**
   * A write of zero bytes clears dataPresent even when characters are
   * waiting; flush then does not deliver them and finish drops them.
   */
  lemma EmptyWriteHidesData()
    ensures var f := WriteOf(PrepareOf(NewFunnel()), 2, false, [65]).0;
            var g := WriteOf(f, 2, false, []).0;
            g.pending == [65] && !g.dataPresent && FlushOf(g) == g &&
            FinishOf(g).delivered == [] && Accepted(FinishOf(g)) == []
  {
  }

  // ---------------------------------------------------------------------
  // The constructor call made by the XML decoder
  // ---------------------------------------------------------------------

  /** The arguments as they reach the constructor (isImmediate, size). */
  datatype Config = Config(immediate: bool, size: nat)

  /**
   * `FunnelDevice(xmlModel, 4096, true)`: 4096 lands in the boolean
   * isImmediate (true) and `true` in the size_t size (1).
   */
  function DecoderConfigAsWritten(): (c: Config)
    ensures c == Config(4096 != 0, if true then 1 else 0)
  {
    Config(true, 1)
  }

  /** An immediate device with a 4096-character buffer, as evidently intended. */
  function DecoderConfig(): (c: Config)
    ensures c.immediate && c.size == 4096
  {
    Config(true, 4096)
  }

  /** With the swapped arguments any write of more than one character is refused. */
  lemma DecoderConfigAsWrittenRefuses(bytes: seq<int>)
    requires |bytes| > 1
    ensures var c := DecoderConfigAsWritten();
            WriteOf(PrepareOf(NewFunnel()), c.size, c.immediate, bytes).1 == Raised(DeviceFullError)
  {
  }

  /** With the intended arguments every write of up to 4096 characters is delivered at once. */
  lemma DecoderConfigDelivers(f: Funnel, bytes: seq<int>)
    requires f.prepared && f.pending == [] && 0 < |bytes| <= 4096
    ensures var c := DecoderConfig();
            WriteOf(f, c.size, c.immediate, bytes) == (f.(bw := f.bw + |bytes|, dataPresent := false, delivered := f.delivered + [bytes]), Done(WriteOk))
  {
    assert f.pending + bytes == bytes;
  }

  // ---------------------------------------------------------------------
  // FunnelDevice
  // ---------------------------------------------------------------------

  class FunnelDevice {
    /** bufferSize */
    const bufferSize: nat
    /** immediate */
    const immediate: bool
    /** buffer: null until prepare */
    var buffer: array?<int>
    /** dataLength */
    var dataLength: nat
    /** dataPresent */
    var dataPresent: bool
    /** bw */
    var bw: nat
    /** The blocks handed to the receiver's receiveData, in order. */
    var delivered: seq<seq<int>>

    ghost predicate Valid()
      reads this
    {
      (buffer == null ==> dataLength == 0 && !dataPresent) &&
      (buffer != null ==> buffer.Length == bufferSize && dataLength <= bufferSize)
    }

    /** The device's observable state. */
    ghost function State(): Funnel
      reads this, buffer
      requires Valid()
    {
      Funnel(buffer != null, if buffer == null then [] else buffer[..dataLength], dataPresent, bw, delivered)
    }

    constructor(isImmediate: bool, size: nat)
      ensures Valid() && immediate == isImmediate && bufferSize == size
      ensures State() == NewFunnel()
    {
      bufferSize := size;
      immediate := isImmediate;
      buffer := null;
      bw := 0;
      dataLength := 0;
      dataPresent := false;
      delivered := [];
    }

    method Prepare()
      requires Valid()
      modifies this
      ensures Valid() && fresh(buffer)
      ensures State() == PrepareOf(old(State()))
    {
      buffer := new int[bufferSize];
      dataLength := 0;
    }

    method Flush()
      requires Valid()
      modifies this
      ensures Valid() && buffer == old(buffer)
      ensures State() == FlushOf(old(State()))
    {
      if dataPresent {
        delivered := delivered + [buffer[..dataLength]];
        dataLength := 0;
        dataPresent := false;
      }
    }

    method Finish()
      requires Valid()
      modifies this
      ensures Valid() && buffer == old(buffer)
      ensures State() == FinishOf(old(State()))
    {
      Flush();
      dataLength := 0;
      dataPresent := false;
      bw := 0;
    }

    method WriteData(buf: seq<int>) returns (r: Outcome)
      requires Valid()
      modifies this, buffer
      ensures Valid() && buffer == old(buffer)
      ensures (State(), r) == WriteOf(old(State()), bufferSize, immediate, buf)
    {
      bw := bw + |buf|;
      if buffer == null {
        return Raised(DeviceNotPreparedError);
      }
      if |buf| + dataLength > bufferSize {
        return Raised(DeviceFullError);
      }
      ghost var before := buffer[..dataLength];
      var i := 0;
      while i < |buf|
        invariant 0 <= i <= |buf| && buffer.Length == bufferSize
        invariant buffer[..dataLength + i] == before + buf[..i]
        modifies buffer
      {
        buffer[dataLength + i] := buf[i];
        assert buf[..i + 1] == buf[..i] + [buf[i]];
        i := i + 1;
      }
      assert buf[..i] == buf;
      dataPresent := |buf| > 0;
      dataLength := dataLength + |buf|;
      if immediate {
        Flush();
      }
      return Done(WriteOk);
    }

    method PutChar(c: int) returns (r: Outcome)
      requires Valid()
      modifies this, buffer
      ensures Valid() && buffer == old(buffer)
      ensures (State(), r) == PutCharOf(old(State()), bufferSize, immediate, c)
    {
      bw := bw + 1;
      if buffer == null {
        return Raised(DeviceNotPreparedError);
      }
      if dataLength >= bufferSize {
        return Raised(DeviceFullError);
      }
      ghost var before := buffer[..dataLength];
      buffer[dataLength] := c;
      assert buffer[..dataLength + 1] == before + [c];
      dataPresent := true;
      dataLength := dataLength + 1;
      if immediate {
        Flush();
      }
      return Done(ReadOk);
    }

    /** readData: the read side is inert and reports ReadOk. */
    method ReadData(length: nat) returns (s: IOState)
      ensures s == ReadOk
    {
      return ReadOk;
    }

    /** getChar: stores 0 and reports ReadOk. */
    method GetChar() returns (c: int, s: IOState)
      ensures c == 0 && s == ReadOk
    {
      return 0, ReadOk;
    }

    /** bytesReadTotal, bytesRead, bytesWritten, errorOccurred and eof. */
    method Counters() returns (readTotal: nat, read: nat, written: nat, error: bool, eof: bool)
      ensures readTotal == 0 && read == 0 && written == bw && !error && !eof
    {
      return 0, 0, bw, false, false;
    }
  }
}
