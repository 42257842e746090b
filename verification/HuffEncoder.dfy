/**
 * The Huffman entropy encoder's MCU routine (encode_mcu_huff, emit_restart, finish_pass_huff)
 * with its destination: output that may refuse to be emptied in the middle of an MCU.
 */
module HuffEncoder {
  import opened Powers
  import opened CodeBytes
  import opened Bits
  import opened BitPacker
  import opened BlockSymbols
  import opened BlockCoder
  import opened RestartIntervals
  import opened Mcus
  import opened HuffScan
  import opened ZigZag

  const BUFSIZE := 512

  /** A destination manager. A suspending one never empties its buffer when asked to; the
      application drains it between calls instead. The other kind writes the whole buffer out. */
  class Destination {
    const suspending: bool
    const buffer: array<nat>
    var next: nat          // next_output_byte; free_in_buffer is what lies behind it
    var sent: seq<nat>     // what has left the buffer

    ghost predicate Valid()
      reads this
    {
      next < buffer.Length
    }

    /** All the output so far. */
    ghost function Data(): seq<nat>
      reads this, buffer
      requires next <= buffer.Length
    {
      sent + buffer[..next]
    }

    /** The output if the working state's pointer is at pos. */
    ghost function Work(pos: nat): seq<nat>
      reads this, buffer
      requires pos <= buffer.Length
    {
      sent + buffer[..pos]
    }

    constructor (suspending: bool, size: nat)
      requires size > 0
      ensures Valid() && Data() == [] && this.suspending == suspending
      ensures fresh(buffer) && buffer.Length == size && sent == [] && next == 0
    {
      this.suspending := suspending;
      buffer := new nat[size];
      next, sent := 0, [];
    }

    /** empty_output_buffer */
    method EmptyOutputBuffer() returns (ok: bool)
      requires buffer.Length > 0
      modifies this
      ensures ok == !suspending
      ensures suspending ==> next == old(next) && sent == old(sent)
      ensures !suspending ==> next == 0 && sent == old(sent) + buffer[..]
    {
      if suspending {
        return false;
      }
      sent := sent + buffer[..];
      next := 0;
      ok := true;
    }

    /** What the application does between calls: it takes the first k bytes of output. */
    method Drain(k: nat)
      requires Valid() && k <= next
      modifies this, buffer
      ensures Valid() && Data() == old(Data()) && next == old(next) - k
    {
      ghost var data := Data();
      sent := sent + buffer[..k];
      ghost var kept := buffer[k..next];
      forall i | 0 <= i < next - k {
        buffer[i] := buffer[i + k];
      }
      next := next - k;
      assert buffer[..next] == kept;
    }
  }

  /** STORE_BUFFER for the local buffer: copies the bytes out, emptying the destination's buffer
      whenever it is full. Fails only on a destination that suspends, and then has changed
      nothing but the free part of its buffer. */
  method StoreBuffer(dest: Destination, pos0: nat, local: array<nat>, bytes: nat) returns (ok: bool, pos: nat)
    requires pos0 < dest.buffer.Length && bytes <= local.Length && local != dest.buffer
    modifies dest, dest.buffer
    ensures pos <= dest.buffer.Length
    ensures ok ==> pos < dest.buffer.Length && dest.Work(pos) == old(dest.Work(pos0)) + local[..bytes]
    ensures dest.suspending ==> dest.next == old(dest.next) && dest.sent == old(dest.sent)
    ensures dest.suspending ==> dest.buffer[..pos0] == old(dest.buffer[..pos0])
    ensures dest.suspending && ok ==> pos == pos0 + bytes
    ensures !ok ==> dest.suspending && dest.buffer.Length <= pos0 + bytes
  {
    pos := pos0;
    var off, left := 0, bytes;
    ghost var before := dest.Work(pos0);
    assert before + local[..0] == before;
    while left > 0
      invariant 0 <= off <= bytes && off + left == bytes && pos < dest.buffer.Length
      invariant dest.Work(pos) == before + local[..off]
      invariant dest.suspending ==> dest.next == old(dest.next) && dest.sent == old(dest.sent)
      invariant dest.suspending ==> pos == pos0 + off && dest.buffer[..pos0] == old(dest.buffer[..pos0])
      invariant local[..] == old(local[..])
    {
      var n := if left < dest.buffer.Length - pos then left else dest.buffer.Length - pos;
      Copy(dest, pos, local, off, n);
      pos, off := pos + n, off + n;
      assert dest.Work(pos) == before + local[..off];
      if pos == dest.buffer.Length {
        assert dest.buffer[..pos] == dest.buffer[..];
        ok := dest.EmptyOutputBuffer();
        if !ok {
          return;
        }
        pos := dest.next;
        assert dest.Work(pos) == dest.sent;
      }
      left := left - n;
    }
    assert local[..off] == local[..bytes];
    ok := true;
  }

  /** memcpy */
  method Copy(dest: Destination, pos: nat, local: array<nat>, off: nat, n: nat)
    requires pos + n <= dest.buffer.Length && off + n <= local.Length && local != dest.buffer
    modifies dest.buffer
    ensures dest.buffer[..pos] == old(dest.buffer[..pos])
    ensures dest.Work(pos + n) == old(dest.Work(pos)) + local[off..off + n]
    ensures local[..] == old(local[..]) && local[..off + n] == local[..off] + local[off..off + n]
  {
    forall i | 0 <= i < n {
      dest.buffer[pos + i] := local[off + i];
    }
    assert dest.buffer[pos..pos + n] == local[off..off + n];
    assert dest.buffer[..pos + n] == dest.buffer[..pos] + dest.buffer[pos..pos + n];
  }

  /** savable_state: the bit accumulator and the DC predictions. */
  datatype State = State(putBuffer: nat, freeBits: int, lastDc: seq<int>) {

    ghost predicate Valid(n: nat) {
      (n == 8 || n == 4) && 0 <= freeBits <= 8 * n && putBuffer < Pow2(8 * n)
    }

    ghost function Pending(n: nat): seq<bool>
      requires freeBits <= 8 * n
    {
      ToBits(putBuffer, 8 * n - freeBits)
    }
  }

  datatype Status = Done | Suspended | BadCoefficient

  /** LOAD_BUFFER: with BUFSIZE bytes of room the packer writes straight into the destination's
      buffer, otherwise into a local one. */
  method LoadBuffer(dest: Destination, pos: nat, st: State, n: nat) returns (p: Packer, isLocal: bool)
    requires pos < dest.buffer.Length && st.Valid(n)
    ensures p.Valid() && fresh(p) && p.n == n && p.raw == [] && p.bits == st.Pending(n)
    ensures isLocal ==> fresh(p.buf) && p.head == []
    ensures !isLocal ==> p.buf == dest.buffer && p.head == dest.buffer[..pos] && pos + BUFSIZE <= dest.buffer.Length
  {
    isLocal := dest.buffer.Length - pos < BUFSIZE;
    if isLocal {
      var local := new nat[BUFSIZE];
      p := new Packer(n, st.putBuffer, st.freeBits, local, 0);
    } else {
      p := new Packer(n, st.putBuffer, st.freeBits, dest.buffer, pos);
    }
  }

  /** STORE_BUFFER: what the packer has written goes out, or is out already. */
  method Store(dest: Destination, pos0: nat, p: Packer, isLocal: bool, ghost base: seq<nat>)
    returns (ok: bool, pos: nat)
    requires pos0 < dest.buffer.Length && p.Valid() && |p.bits| <= 1985
    requires base == dest.Work(pos0)
    requires isLocal ==> p.buf != dest.buffer && p.head == []
    requires !isLocal ==> p.buf == dest.buffer && p.head == dest.buffer[..pos0] && pos0 + BUFSIZE <= dest.buffer.Length
    modifies dest, dest.buffer
    ensures ok ==> pos < dest.buffer.Length && dest.Work(pos) == base + Stuff(p.raw)
    ensures dest.suspending ==> dest.next == old(dest.next) && dest.sent == old(dest.sent)
    ensures dest.suspending ==> dest.buffer[..pos0] == old(dest.buffer[..pos0])
    ensures dest.suspending && ok ==> pos0 <= pos <= pos0 + ROOM
    ensures !ok ==> dest.suspending && dest.buffer.Length <= pos0 + ROOM
  {
    StuffLength(p.raw);
    if isLocal {
      assert p.buf[..p.pos] == Stuff(p.raw) by { assert [] + Stuff(p.raw) == Stuff(p.raw); }
      ok, pos := StoreBuffer(dest, pos0, p.buf, p.pos);
    } else {
      ok, pos := true, p.pos;
      assert dest.sent + (p.head + Stuff(p.raw)) == base + Stuff(p.raw);
    }
  }

  /** encode_one_block: the block's bits join those pending; whole bytes go out. */
  method PutBlock(dest: Destination, pos0: nat, st0: State, n: nat, ts: Tables, block: Block, lastDc: int,
                  precision: nat)
    returns (status: Status, pos: nat, st: State, ghost more: seq<nat>)
    requires pos0 < dest.buffer.Length && st0.Valid(n) && IsTables(ts) && precision <= 12
    modifies dest, dest.buffer
    ensures status.BadCoefficient? <==> !InRange(block[0] - lastDc, ToZigZag(block), precision + 2)
    ensures status.Done? ==>
              && pos < dest.buffer.Length && dest.Work(pos) == old(dest.Work(pos0)) + Stuff(more)
              && st.Valid(n) && st.lastDc == st0.lastDc && IsBytes(more)
              && BitsOf(more) + st.Pending(n) == st0.Pending(n) + BlockBits(block[0] - lastDc, block, precision, ts)
    ensures dest.suspending ==> dest.next == old(dest.next) && dest.sent == old(dest.sent)
    ensures dest.suspending ==> dest.buffer[..pos0] == old(dest.buffer[..pos0])
    ensures dest.suspending && status.Done? ==> pos0 <= pos <= pos0 + ROOM
    ensures status.Suspended? ==> dest.suspending && dest.buffer.Length <= pos0 + ROOM
  {
    hide BlockBits, InRange, IsTables, BitsOf, ToBits, Stuff, Pow2;
    st, pos, more := st0, pos0, [];
    var p, isLocal := LoadBuffer(dest, pos0, st0, n);
    ghost var base, head := dest.Work(pos0), dest.buffer[..pos0];
    var ok := EncodeBlock(p, ts, block, lastDc, precision);
    assert dest.buffer[..pos0] == head;
    if !ok {
      return BadCoefficient, pos, st, more;
    }
    st := State(p.putBuffer, p.freeBits, st0.lastDc);
    more := p.raw;
    ok, pos := Store(dest, pos0, p, isLocal, base);
    status := if ok then Done else Suspended;
  }

  /** flush_bits: the pending bits, padded with ones, go out. */
  method PutFlush(dest: Destination, pos0: nat, st0: State, n: nat) returns (ok: bool, pos: nat, st: State)
    requires pos0 < dest.buffer.Length && st0.Valid(n)
    modifies dest, dest.buffer
    ensures ok ==>
              && pos < dest.buffer.Length && dest.Work(pos) == old(dest.Work(pos0)) + SegmentOf(st0.Pending(n))
              && st == State(0, 8 * n, st0.lastDc)
    ensures dest.suspending ==> dest.next == old(dest.next) && dest.sent == old(dest.sent)
    ensures dest.suspending ==> dest.buffer[..pos0] == old(dest.buffer[..pos0])
    ensures dest.suspending && ok ==> pos0 <= pos <= pos0 + ROOM
    ensures !ok ==> dest.suspending && dest.buffer.Length <= pos0 + ROOM
  {
    hide BytesFrom, Stuff, BitsOf;
    var p, isLocal := LoadBuffer(dest, pos0, st0, n);
    ghost var base, head := dest.Work(pos0), dest.buffer[..pos0];
    p.FlushBits();
    assert dest.buffer[..pos0] == head;
    st := State(p.putBuffer, p.freeBits, st0.lastDc);
    ok, pos := Store(dest, pos0, p, isLocal, base);
  }

  /** emit_byte */
  method PutByte(dest: Destination, pos0: nat, b: nat) returns (ok: bool, pos: nat)
    requires pos0 < dest.buffer.Length
    modifies dest, dest.buffer
    ensures ok ==> pos < dest.buffer.Length && dest.Work(pos) == old(dest.Work(pos0)) + [b]
    ensures dest.suspending ==> dest.next == old(dest.next) && dest.sent == old(dest.sent)
    ensures dest.suspending ==> dest.buffer[..pos0] == old(dest.buffer[..pos0])
    ensures dest.suspending && ok ==> pos == pos0 + 1
    ensures !ok ==> dest.suspending && dest.buffer.Length <= pos0 + 1
  {
    ghost var head := dest.buffer[..pos0];
    dest.buffer[pos0] := b;
    pos := pos0 + 1;
    ok := true;
    assert dest.buffer[..pos] == head + [b];
    if pos == dest.buffer.Length {
      assert dest.buffer[..pos] == dest.buffer[..];
      ok := dest.EmptyOutputBuffer();
      if ok {
        pos := dest.next;
        assert dest.Work(pos) == dest.sent;
      }
    }
  }

  /** emit_restart */
  method PutRestart(dest: Destination, pos0: nat, st0: State, n: nat, num: nat)
    returns (ok: bool, pos: nat, st: State)
    requires pos0 < dest.buffer.Length && st0.Valid(n)
    modifies dest, dest.buffer
    ensures ok ==>
              && pos < dest.buffer.Length
              && dest.Work(pos) == old(dest.Work(pos0)) + SegmentOf(st0.Pending(n)) + [0xFF, 0xD0 + num]
              && st == State(0, 8 * n, seq(|st0.lastDc|, _ => 0))
    ensures dest.suspending ==> dest.next == old(dest.next) && dest.sent == old(dest.sent)
    ensures dest.suspending ==> dest.buffer[..pos0] == old(dest.buffer[..pos0])
    ensures dest.suspending && ok ==> pos0 <= pos <= pos0 + ROOM + 2
    ensures !ok ==> dest.suspending && dest.buffer.Length <= pos0 + ROOM + 2
  {
    hide SegmentOf;
    ghost var head, base := dest.buffer[..pos0], dest.Work(pos0);
    ok, pos, st := PutFlush(dest, pos0, st0, n);
    if !ok {
      return;
    }
    ghost var p1 := pos;
    ok, pos := PutByte(dest, pos, 0xFF);
    if dest.suspending {
      assert dest.buffer[..p1][..pos0] == dest.buffer[..pos0];
    }
    if !ok {
      return;
    }
    ghost var p2 := pos;
    ok, pos := PutByte(dest, pos, 0xD0 + num);
    if dest.suspending {
      assert dest.buffer[..p2][..pos0] == dest.buffer[..pos0];
    }
    st := st.(lastDc := seq(|st0.lastDc|, _ => 0));
    assert [0xFF] + [0xD0 + num] == [0xFF, 0xD0 + num];
  }

  /** The blocks of an MCU. */
  method PutBlocks(cfg: Config, dest: Destination, pos0: nat, st0: State, n: nat, mcu: Mcu)
    returns (status: Status, pos: nat, st: State, ghost more: seq<nat>)
    requires pos0 < dest.buffer.Length && st0.Valid(n) && cfg.Valid() && Fits(cfg.layout, st0.lastDc, mcu)
    modifies dest, dest.buffer
    ensures status.Done? ==> Codable(cfg.layout, st0.lastDc, mcu, 0)
    ensures status.Done? ==>
              && pos < dest.buffer.Length && dest.Work(pos) == old(dest.Work(pos0)) + Stuff(more)
              && st.Valid(n) && IsBytes(more)
              && BitsOf(more) + st.Pending(n) == st0.Pending(n) + McuBits(cfg, st0.lastDc, mcu, 0)
              && st.lastDc == AfterMcu(cfg.layout, st0.lastDc, mcu, 0)
    ensures status.BadCoefficient? ==> !Codable(cfg.layout, st0.lastDc, mcu, 0)
    ensures dest.suspending ==> dest.next == old(dest.next) && dest.sent == old(dest.sent)
    ensures dest.suspending ==> dest.buffer[..pos0] == old(dest.buffer[..pos0])
    ensures status.Suspended? ==> dest.suspending && dest.buffer.Length <= pos0 + ROOM * |mcu|
  {
    hide BitsOf, Stuff, BlockBits, InRange, IsTables, State.Pending, Codable, McuBits, AfterMcu, ToZigZag;
    st, pos, more := st0, pos0, [];
    ghost var good, base := Codable(cfg.layout, st0.lastDc, mcu, 0), dest.Work(pos0);
    ghost var bits := st0.Pending(n) + (if good then McuBits(cfg, st0.lastDc, mcu, 0) else []);
    NothingStuffed(base, st0.Pending(n));
    var b := 0;
    while b < |mcu|
      invariant 0 <= b <= |mcu| && pos < dest.buffer.Length && st.Valid(n) && Fits(cfg.layout, st.lastDc, mcu)
      invariant Codable(cfg.layout, st.lastDc, mcu, b) <==> good
      invariant AfterMcu(cfg.layout, st.lastDc, mcu, b) == AfterMcu(cfg.layout, st0.lastDc, mcu, 0)
      invariant IsBytes(more) && dest.Work(pos) == base + Stuff(more)
      invariant good ==> BitsOf(more) + st.Pending(n) + McuBits(cfg, st.lastDc, mcu, b) == bits
      invariant dest.suspending ==> dest.next == old(dest.next) && dest.sent == old(dest.sent)
      invariant dest.suspending ==> dest.buffer[..pos0] == old(dest.buffer[..pos0])
      invariant dest.suspending ==> pos0 <= pos <= pos0 + ROOM * b
    {
      var ci := cfg.layout.membership[b];
      NextBlock(cfg, st.lastDc, mcu, b);
      ghost var p1, st1, some, next := pos, st, more, [];
      var ts := cfg.TablesOf(ci);
      status, pos, st, next := PutBlock(dest, pos, st, n, ts, mcu[b], st.lastDc[ci], cfg.layout.precision);
      if dest.suspending {
        assert dest.buffer[..p1][..pos0] == dest.buffer[..pos0];
      }
      if !status.Done? {
        return;
      }
      more := some + next;
      if good {
        NextBits(cfg, st1, st, n, mcu, b, some, next);
      }
      StuffAppend(some, next);
      assert base + Stuff(some) + Stuff(next) == base + (Stuff(some) + Stuff(next));
      WithDc(st, n, st.lastDc[ci := mcu[b][0]]);
      st := st.(lastDc := st.lastDc[ci := mcu[b][0]]);
      b := b + 1;
    }
    EndOfMcu(cfg, st.lastDc, mcu);
    status := Done;
  }

  lemma NextBlock(cfg: Config, lastDc: seq<int>, mcu: Mcu, b: nat)
    requires cfg.Valid() && Fits(cfg.layout, lastDc, mcu) && b < |mcu|
    ensures cfg.layout.membership[b] < |lastDc| && IsTables(cfg.TablesOf(cfg.layout.membership[b]))
    ensures var ci := cfg.layout.membership[b];
            var dc := lastDc[ci := mcu[b][0]];
            && (Codable(cfg.layout, lastDc, mcu, b) <==>
                InRange(mcu[b][0] - lastDc[ci], ToZigZag(mcu[b]), cfg.layout.precision + 2)
                && Codable(cfg.layout, dc, mcu, b + 1))
            && AfterMcu(cfg.layout, lastDc, mcu, b) == AfterMcu(cfg.layout, dc, mcu, b + 1)
  {
  }

  lemma EndOfMcu(cfg: Config, lastDc: seq<int>, mcu: Mcu)
    requires cfg.Valid() && Fits(cfg.layout, lastDc, mcu)
    ensures Codable(cfg.layout, lastDc, mcu, |mcu|) && AfterMcu(cfg.layout, lastDc, mcu, |mcu|) == lastDc
    ensures McuBits(cfg, lastDc, mcu, |mcu|) == []
  {
  }

  lemma NothingStuffed(base: seq<nat>, pending: seq<bool>)
    ensures base + Stuff([]) == base && BitsOf([]) + pending == pending
  {
  }

  lemma WithDc(st: State, n: nat, dc: seq<int>)
    requires st.Valid(n)
    ensures st.(lastDc := dc).Valid(n) && st.(lastDc := dc).Pending(n) == st.Pending(n)
  {
  }

  lemma NextBits(cfg: Config, st1: State, st: State, n: nat, mcu: Mcu, b: nat, some: seq<nat>, next: seq<nat>)
    requires cfg.Valid() && Fits(cfg.layout, st1.lastDc, mcu) && b < |mcu| && Codable(cfg.layout, st1.lastDc, mcu, b)
    requires st1.Valid(n) && st.Valid(n)
    requires var ci := cfg.layout.membership[b];
             BitsOf(next) + st.Pending(n)
             == st1.Pending(n) + BlockBits(mcu[b][0] - st1.lastDc[ci], mcu[b], cfg.layout.precision, cfg.TablesOf(ci))
    ensures var dc := st1.lastDc[cfg.layout.membership[b] := mcu[b][0]];
            BitsOf(some + next) + st.Pending(n) + McuBits(cfg, dc, mcu, b + 1)
            == BitsOf(some) + st1.Pending(n) + McuBits(cfg, st1.lastDc, mcu, b)
  {
    hide BlockBits, State.Pending, BitsOf;
    var ci := cfg.layout.membership[b];
    BitsOfAppend(some, next);
    Shift(BitsOf(some), BitsOf(next), st.Pending(n), st1.Pending(n),
          BlockBits(mcu[b][0] - st1.lastDc[ci], mcu[b], cfg.layout.precision, cfg.TablesOf(ci)),
          McuBits(cfg, st1.lastDc[ci := mcu[b][0]], mcu, b + 1));
  }

  lemma Shift(a: seq<bool>, b: seq<bool>, c: seq<bool>, d: seq<bool>, e: seq<bool>, f: seq<bool>)
    requires b + c == d + e
    ensures a + b + c + f == a + d + (e + f)
  {
    assert a + b + c == a + (b + c) && a + d + e == a + (d + e);
    assert a + d + (e + f) == a + d + e + f;
  }

  /** Whole bytes out, stuffed, and the rest pending: together they are the bits. */
  ghost predicate Carries(data: seq<nat>, base: seq<nat>, raw: seq<nat>, st: State, n: nat, bits: seq<bool>) {
    && st.Valid(n) && IsBytes(raw)
    && data == base + Stuff(raw)
    && BitsOf(raw) + st.Pending(n) == bits
  }

  lemma CarriesMore(data: seq<nat>, base: seq<nat>, raw: seq<nat>, st: State, n: nat, bits: seq<bool>,
                    data': seq<nat>, more: seq<nat>, st': State, added: seq<bool>)
    requires Carries(data, base, raw, st, n, bits)
    requires data' == data + Stuff(more) && IsBytes(more) && st'.Valid(n)
    requires BitsOf(more) + st'.Pending(n) == st.Pending(n) + added
    ensures Carries(data', base, raw + more, st', n, bits + added)
  {
    hide State.Pending, BitsOf, Stuff;
    StuffAppend(raw, more);
    BitsOfAppend(raw, more);
    assert base + Stuff(raw) + Stuff(more) == base + (Stuff(raw) + Stuff(more));
    Shift(BitsOf(raw), BitsOf(more), st'.Pending(n), st.Pending(n), added, []);
    assert BitsOf(raw) + st.Pending(n) + (added + []) == BitsOf(raw) + st.Pending(n) + added;
    assert BitsOf(raw) + BitsOf(more) + st'.Pending(n) + [] == BitsOf(raw) + BitsOf(more) + st'.Pending(n);
  }

  /** Padding and stuffing what is pending completes the segment. */
  lemma FlushCloses(data: seq<nat>, base: seq<nat>, raw: seq<nat>, st: State, n: nat, bits: seq<bool>)
    requires Carries(data, base, raw, st, n, bits)
    ensures data + SegmentOf(st.Pending(n)) == base + SegmentOf(bits)
  {
    hide State.Pending, Stuff, BitsOf, BytesFrom, Padded;
    var p := st.Pending(n);
    PaddedBehind(raw, p);
    StuffAppend(raw, BytesFrom(Padded(p)));
    assert base + Stuff(raw) + SegmentOf(p) == base + (Stuff(raw) + SegmentOf(p));
  }

  lemma PaddedBehind(raw: seq<nat>, p: seq<bool>)
    requires IsBytes(raw)
    ensures BytesFrom(Padded(BitsOf(raw) + p)) == raw + BytesFrom(Padded(p))
  {
    hide BitsOf, BytesFrom, Padded;
    var last, m := BytesFrom(Padded(p)), (8 - |p| % 8) % 8;
    PaddedBy(p, m);
    PaddedBy(BitsOf(raw) + p, m);
    BitsOfBytesFrom(Padded(p));
    BitsOfAppend(raw, last);
    BytesFromBitsOf(raw + last);
    assert Padded(BitsOf(raw) + p) == BitsOf(raw) + Padded(p);
  }

  class ScanWriter {
    const cfg: Config
    const n: nat
    const dest: Destination
    var saved: State
    var restartsToGo: nat      // MCUs left in this restart interval
    var nextRestartNum: nat    // next restart number to write

    ghost var mcus: seq<Mcu>   // the MCUs committed so far
    ghost var raw: seq<nat>    // data bytes of the open interval that are out

    /** The output is that of the MCUs committed: closed intervals, and of the open one as much
        as the accumulator has let go. */
    ghost predicate Valid()
      reads this, dest, dest.buffer
    {
      && cfg.Valid() && dest.Valid() && ScanCodable(cfg.layout, mcus)
      && AllCodable(cfg.layout, FreshDc(cfg.layout), OpenMcus(cfg.layout.interval, mcus))
      && Carries(dest.Data(), ClosedBytes(cfg, mcus, 0), raw, saved, n,
                 McusBits(cfg, FreshDc(cfg.layout), OpenMcus(cfg.layout.interval, mcus)))
      && saved.lastDc == AfterMcus(cfg.layout, FreshDc(cfg.layout), OpenMcus(cfg.layout.interval, mcus))
      && |saved.lastDc| == |cfg.layout.comps|
      && nextRestartNum == NextNum(cfg.layout.interval, |mcus|, 0)
      && (cfg.layout.interval > 0 ==> restartsToGo == cfg.layout.interval - OpenSize(cfg.layout.interval, |mcus|))
    }

    /** start_pass_huff */
    constructor (cfg: Config, n: nat, dest: Destination)
      requires cfg.Valid() && (n == 8 || n == 4) && dest.Valid() && dest.Data() == []
      ensures Valid() && mcus == [] && this.cfg == cfg && this.dest == dest
    {
      this.cfg, this.n, this.dest := cfg, n, dest;
      saved := State(0, 8 * n, FreshDc(cfg.layout));
      restartsToGo, nextRestartNum := cfg.layout.interval, 0;
      mcus, raw := [], [];
      new;
      OnlyInterval(cfg, [], 0);
    }

    /** The working state at the point where the MCU's blocks are coded. */
    ghost predicate Ready(data: seq<nat>, st: State, base: seq<nat>, out: seq<nat>)
      reads `mcus
    {
      var open := Joined(cfg.layout.interval, mcus);
      && cfg.Valid() && AllCodable(cfg.layout, FreshDc(cfg.layout), open)
      && Carries(data, base, out, st, n, McusBits(cfg, FreshDc(cfg.layout), open))
      && st.lastDc == AfterMcus(cfg.layout, FreshDc(cfg.layout), open) && |st.lastDc| == |cfg.layout.comps|
    }

    /** What is closed before the next MCU: with a restart marker, if one is due. */
    ghost function ClosedBefore(): seq<nat>
      requires cfg.Valid() && ScanCodable(cfg.layout, mcus)
              && AllCodable(cfg.layout, FreshDc(cfg.layout), OpenMcus(cfg.layout.interval, mcus))
      reads `mcus
    {
      if Full(cfg.layout.interval, |mcus|) then
        ClosedBytes(cfg, mcus, 0) + IntervalBytes(cfg, OpenMcus(cfg.layout.interval, mcus))
            + [0xFF, 0xD0 + NextNum(cfg.layout.interval, |mcus|, 0)]
      else ClosedBytes(cfg, mcus, 0)
    }

    /** The restart marker, if one is due before the next MCU. */
    method PutRestartIfDue() returns (ok: bool, pos: nat, st: State, ghost base: seq<nat>, ghost out: seq<nat>)
      requires Valid()
      modifies dest, dest.buffer
      ensures ok ==> pos < dest.buffer.Length && Ready(dest.Work(pos), st, base, out)
      ensures ok ==> base == ClosedBefore()
      ensures dest.suspending ==> dest.next == old(dest.next) && dest.sent == old(dest.sent)
      ensures dest.suspending ==> dest.buffer[..old(dest.next)] == old(dest.buffer[..dest.next])
      ensures dest.suspending && ok ==> old(dest.next) <= pos <= old(dest.next) + ROOM + 2
      ensures !ok ==> dest.suspending && dest.buffer.Length <= old(dest.next) + ROOM + 2
    {
      hide ClosedBytes, IntervalBytes, McusBits, AfterMcus, AllCodable, ScanCodable, OpenMcus;
      hide Carries, SegmentOf, NextNum;
      ok, pos, st, base, out := true, dest.next, saved, ClosedBytes(cfg, mcus, 0), raw;
      if cfg.layout.interval > 0 && restartsToGo == 0 {
        Segment(dest.Data(), base, raw, saved);
        ok, pos, st := PutRestart(dest, pos, st, n, nextRestartNum);
        if ok {
          base := base + IntervalBytes(cfg, OpenMcus(cfg.layout.interval, mcus)) + [0xFF, 0xD0 + nextRestartNum];
          out := [];
          StartAfresh(base, st);
        }
      }
    }

    lemma Segment(data: seq<nat>, base: seq<nat>, out: seq<nat>, st: State)
      requires cfg.Valid() && AllCodable(cfg.layout, FreshDc(cfg.layout), OpenMcus(cfg.layout.interval, mcus))
      requires Carries(data, base, out, st, n, McusBits(cfg, FreshDc(cfg.layout), OpenMcus(cfg.layout.interval, mcus)))
      ensures st.Valid(n)
              && data + SegmentOf(st.Pending(n)) == base + IntervalBytes(cfg, OpenMcus(cfg.layout.interval, mcus))
    {
      FlushCloses(data, base, out, st, n, McusBits(cfg, FreshDc(cfg.layout), OpenMcus(cfg.layout.interval, mcus)));
    }

    lemma StartAfresh(data: seq<nat>, st: State)
      requires cfg.Valid() && (n == 8 || n == 4) && st == State(0, 8 * n, FreshDc(cfg.layout))
      ensures AllCodable(cfg.layout, FreshDc(cfg.layout), [])
              && AfterMcus(cfg.layout, FreshDc(cfg.layout), []) == FreshDc(cfg.layout)
      ensures Carries(data, data, [], st, n, McusBits(cfg, FreshDc(cfg.layout), []))
    {
    }

    /** The working state is where one more MCU puts it. */
    ghost predicate AfterOneMore(data: seq<nat>, st: State, out: seq<nat>, mcu: Mcu)
      reads `mcus
    {
      var all := mcus + [mcu];
      && cfg.Valid() && ScanCodable(cfg.layout, all)
      && AllCodable(cfg.layout, FreshDc(cfg.layout), OpenMcus(cfg.layout.interval, all))
      && Carries(data, ClosedBytes(cfg, all, 0), out, st, n,
                 McusBits(cfg, FreshDc(cfg.layout), OpenMcus(cfg.layout.interval, all)))
      && st.lastDc == AfterMcus(cfg.layout, FreshDc(cfg.layout), OpenMcus(cfg.layout.interval, all))
      && |st.lastDc| == |cfg.layout.comps|
    }

    /** The MCU, in a working state; nothing is committed. */
    method CodeMcu(mcu: Mcu) returns (status: Status, pos: nat, st: State, ghost out: seq<nat>)
      requires Valid() && |mcu| == |cfg.layout.membership|
      modifies dest, dest.buffer
      ensures status.Done? ==> pos < dest.buffer.Length && AfterOneMore(dest.Work(pos), st, out, mcu)
      ensures status.Suspended? ==> dest.suspending && dest.buffer.Length - dest.next <= ROOM * (|mcu| + 1) + 2
      ensures status.BadCoefficient? ==>
              !AllCodable(cfg.layout, FreshDc(cfg.layout), Joined(cfg.layout.interval, mcus) + [mcu])
      ensures dest.suspending ==> dest.next == old(dest.next) && dest.sent == old(dest.sent)
      ensures dest.suspending ==> dest.buffer[..dest.next] == old(dest.buffer[..dest.next])
    {
      hide ClosedBytes, IntervalBytes, McusBits, AfterMcus, AllCodable, ScanCodable, OpenMcus, Carries;
      hide NextNum, AfterMcu, Codable, McuBits;
      hide ClosedBefore, Ready, FreshDc, AfterOneMore, Stuff, BitsOf, State.Pending;
      var ok, pos1, st1, base, before := PutRestartIfDue();
      pos, st, out := pos1, st1, before;
      if !ok {
        return Suspended, pos, st, out;
      }
      ghost var more, head, data := [], dest.buffer[..pos1], dest.Work(pos1);
      ReadyState(data, base, before, st1, mcu);
      if dest.suspending {
        assert head[..old(dest.next)] == old(dest.buffer[..dest.next]);
      }
      status, pos, st, more := PutBlocks(cfg, dest, pos1, st1, n, mcu);
      if dest.suspending {
        assert head[..old(dest.next)] == dest.buffer[..old(dest.next)];
      }
      if status.Done? {
        Extend(data, base, before, st1, mcu, dest.Work(pos), more, st);
        out := before + more;
      }
    }

    /**
     * encode_mcu_huff. A finished MCU is committed: output and state are those of one MCU more.
     * A suspended one leaves everything as it was, so that it can be repeated once the
     * destination has been drained; that happens only if the destination is one that suspends
     * and does not have room for the MCU's worst case.
     */
    method EncodeMcu(mcu: Mcu) returns (status: Status)
      requires Valid() && |mcu| == |cfg.layout.membership|
      modifies this, dest, dest.buffer
      ensures status.Done? ==> Valid() && mcus == old(mcus) + [mcu]
      ensures status.Suspended? ==>
                && Valid() && mcus == old(mcus) && saved == old(saved)
                && restartsToGo == old(restartsToGo) && nextRestartNum == old(nextRestartNum)
                && dest.Data() == old(dest.Data()) && dest.next == old(dest.next)
      ensures status.Suspended? ==> dest.suspending && dest.buffer.Length - dest.next <= ROOM * (|mcu| + 1) + 2
      ensures status.BadCoefficient? ==>
              !AllCodable(cfg.layout, FreshDc(cfg.layout), Joined(cfg.layout.interval, old(mcus)) + [mcu])
      ensures dest.suspending ==> dest.sent == old(dest.sent)
    {
      hide ClosedBytes, McusBits, AfterMcus, AllCodable, ScanCodable, OpenMcus, Carries, NextNum, FreshDc, OpenSize;
      var pos, st;
      ghost var out;
      status, pos, st, out := CodeMcu(mcu);
      if status.Done? {
        OneMoreMcu(cfg.layout.interval, |mcus|, 0);
        dest.next, saved := pos, st;
        if cfg.layout.interval > 0 {
          if restartsToGo == 0 {
            restartsToGo := cfg.layout.interval;
            nextRestartNum := (nextRestartNum + 1) % 8;
          }
          restartsToGo := restartsToGo - 1;
        }
        mcus, raw := mcus + [mcu], out;
      }
    }

    lemma ReadyState(data: seq<nat>, base: seq<nat>, out: seq<nat>, st: State, mcu: Mcu)
      requires cfg.Valid() && Ready(data, st, base, out) && |mcu| == |cfg.layout.membership|
      ensures st.Valid(n) && Fits(cfg.layout, st.lastDc, mcu)
      ensures !Codable(cfg.layout, st.lastDc, mcu, 0) ==>
              !AllCodable(cfg.layout, FreshDc(cfg.layout), Joined(cfg.layout.interval, mcus) + [mcu])
    {
      if !Codable(cfg.layout, st.lastDc, mcu, 0) {
        NotCodable(cfg.layout, FreshDc(cfg.layout), Joined(cfg.layout.interval, mcus), mcu);
      }
    }

    lemma Extend(data: seq<nat>, base: seq<nat>, out: seq<nat>, st: State, mcu: Mcu,
                 data': seq<nat>, more: seq<nat>, st': State)
      requires cfg.Valid() && ScanCodable(cfg.layout, mcus)
              && AllCodable(cfg.layout, FreshDc(cfg.layout), OpenMcus(cfg.layout.interval, mcus))
      requires Ready(data, st, base, out) && base == ClosedBefore()
      requires Fits(cfg.layout, st.lastDc, mcu) && Codable(cfg.layout, st.lastDc, mcu, 0) && st.Valid(n)
      requires data' == data + Stuff(more) && IsBytes(more) && st'.Valid(n)
      requires BitsOf(more) + st'.Pending(n) == st.Pending(n) + McuBits(cfg, st.lastDc, mcu, 0)
      requires st'.lastDc == AfterMcu(cfg.layout, st.lastDc, mcu, 0)
      ensures AfterOneMore(data', st', out + more, mcu)
    {
      hide ClosedBytes, IntervalBytes, McusBits, AfterMcus, AllCodable, ScanCodable, OpenMcus, Carries, NextNum;
      hide AfterMcu, Codable, McuBits, Stuff, BitsOf, State.Pending;
      var open := Joined(cfg.layout.interval, mcus);
      McusSnoc(cfg, FreshDc(cfg.layout), open, mcu);
      ScanGrows(cfg, mcus, mcu, 0);
      CarriesMore(data, base, out, st, n, McusBits(cfg, FreshDc(cfg.layout), open),
                  data', more, st', McuBits(cfg, st.lastDc, mcu, 0));
    }

    /** finish_pass_huff: the output is then the scan. It cannot be suspended. */
    method FinishPass() returns (ok: bool)
      requires Valid()
      modifies `saved, dest, dest.buffer
      ensures ok ==> dest.Valid() && dest.Data() == ScanBytes(cfg, mcus, 0)
      ensures !ok ==> dest.suspending && dest.buffer.Length <= old(dest.next) + ROOM
    {
      hide ClosedBytes, IntervalBytes, McusBits, AfterMcus, AllCodable, ScanCodable, OpenMcus, Carries, ScanBytes;
      ScanIsClosedAndOpen(cfg, mcus, 0);
      Segment(dest.Data(), ClosedBytes(cfg, mcus, 0), raw, saved);
      var pos, st;
      ok, pos, st := PutFlush(dest, dest.next, saved, n);
      if ok {
        dest.next, saved := pos, st;
      }
    }
  }

  lemma {:induction false} NotCodable(lay: Layout, lastDc: seq<int>, mcus: seq<Mcu>, mcu: Mcu)
    requires AllCodable(lay, lastDc, mcus)
    requires var dc := AfterMcus(lay, lastDc, mcus); Fits(lay, dc, mcu) && !Codable(lay, dc, mcu, 0)
    ensures !AllCodable(lay, lastDc, mcus + [mcu])
    decreases |mcus|
  {
    var all := mcus + [mcu];
    if mcus != [] {
      assert all[0] == mcus[0] && all[1..] == mcus[1..] + [mcu];
      NotCodable(lay, AfterMcu(lay, lastDc, mcus[0], 0), mcus[1..], mcu);
    }
  }

  /** What an MCU can take up of the destination's buffer, with a restart marker before it. */
  function McuRoom(lay: Layout): nat {
    ROOM * (|lay.membership| + 1) + 2
  }

  /** A buffer of that size holds an MCU, every drain makes room for one, and there is one drain
      for each of count MCUs and one for the end. */
  ghost predicate DrainsEnough(lay: Layout, size: nat, count: nat, drains: seq<nat>) {
    && McuRoom(lay) < size
    && count < |drains|
    && forall j :: 0 <= j < |drains| ==> McuRoom(lay) < drains[j]
  }

  /**
   * A whole scan, with the application draining the destination whenever an MCU is suspended and
   * before the end. However often that happens and however much is drained each time, the bytes
   * are the same; without suspension, or if enough is drained, the scan is finished exactly if
   * no coefficient is out of range.
   */
  method EncodeScan(w: ScanWriter, mcus: seq<Mcu>, drains: seq<nat>) returns (finished: bool)
    requires w.Valid() && w.mcus == [] && forall i :: 0 <= i < |mcus| ==> |mcus[i]| == |w.cfg.layout.membership|
    modifies w, w.dest, w.dest.buffer
    ensures finished ==> ScanCodable(w.cfg.layout, mcus) && w.dest.next <= w.dest.buffer.Length
    ensures finished ==> w.dest.Data() == ScanBytes(w.cfg, mcus, 0)
    ensures !w.dest.suspending || DrainsEnough(w.cfg.layout, w.dest.buffer.Length, |mcus|, drains) ==>
              (finished <==> ScanCodable(w.cfg.layout, mcus))
  {
    hide ScanWriter.Valid, ScanBytes, ScanCodable, AllCodable, OpenMcus, Joined;
    var i, j := 0, 0;
    WriterFacts(w);
    while i < |mcus|
      invariant 0 <= i <= |mcus| && 0 <= j <= |drains|
      invariant w.Valid() && w.cfg.Valid() && w.mcus == mcus[..i]
      invariant DrainsEnough(w.cfg.layout, w.dest.buffer.Length, |mcus|, drains) ==>
                  j <= i || (j == i + 1 && McuRoom(w.cfg.layout) < w.dest.buffer.Length - w.dest.next)
      decreases |mcus| - i, |drains| - j
    {
      ghost var can := ScanCodable(w.cfg.layout, mcus);
      if can {
        ScanPrefix(w.cfg.layout, mcus, i + 1);
      }
      NextJoins(w.cfg.layout, mcus, i);
      WriterFacts(w);
      var status := w.EncodeMcu(mcus[i]);
      match status
      case Done =>
        i := i + 1;
      case BadCoefficient =>
        return false;
      case Suspended =>
        if j == |drains| {
          return false;
        }
        DrainSome(w, drains[j]);
        j := j + 1;
    }
    WriterFacts(w);
    if j < |drains| {
      DrainSome(w, drains[j]);
    }
    WriterFacts(w);
    assert mcus[..i] == mcus;
    finished := w.FinishPass();
  }

  lemma WriterFacts(w: ScanWriter)
    requires w.Valid()
    ensures w.cfg.Valid() && ScanCodable(w.cfg.layout, w.mcus) && w.dest.Valid()
  {
  }

  /** The application takes up to k bytes. */
  method DrainSome(w: ScanWriter, k: nat)
    requires w.Valid()
    modifies w.dest, w.dest.buffer
    ensures w.Valid() && w.mcus == old(w.mcus)
    ensures w.dest.next == if k < old(w.dest.next) then old(w.dest.next) - k else 0
  {
    hide Carries, ClosedBytes, McusBits, AfterMcus, AllCodable, ScanCodable, OpenMcus;
    w.dest.Drain(if k < w.dest.next then k else w.dest.next);
  }
}
