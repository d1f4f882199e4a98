/** Decoding a block of instructions until a byte count is reached. */
module Block {
  import opened Bits
  import opened ByteOrder
  import opened PcRelative

  const MAX_BLOCK: nat := 32

  datatype Status =
    | Ok | InvalidArgument | UnsupportedFeature | DecodeFailed | OutputTooSmall | UnsupportedRelocation
    | BranchOutOfRange | ForbiddenClobber | OtherError

  /** A decoded instruction, as far as the block loop and the relocator look at it. */
  datatype Inst = Inst(address: u64, size: nat, terminator: bool, bytes: seq<u8>, id: nat)

  datatype Decoded = Good(inst: Inst) | Bad(status: Status)

  /** A target's decoder: what it makes of the code from some place on, at an address. */
  type Decoder = (seq<u8>, u64) -> Decoded

  /** A failing decoder reports an error. */
  ghost predicate ValidDecoder(decode: Decoder) {
    forall code: seq<u8>, address: u64 :: decode(code, address).Bad? ==> decode(code, address).status != Ok
  }

  /** The instruction at offset `at`, if the decoder finds one there that fits the code. */
  function InstAt(decode: Decoder, code: seq<u8>, address: u64, at: nat): (d: Decoded)
    requires at <= |code|
    ensures d.Good? ==> 0 < d.inst.size <= |code| - at
  {
    var d := decode(code[at..], Wrap(address + at));
    if d.Good? && (d.inst.size == 0 || d.inst.size > |code| - at) then Bad(DecodeFailed) else d
  }

  /** The bytes taken by some instructions. */
  function Total(insts: seq<Inst>): nat {
    if insts == [] then 0 else Total(insts[..|insts| - 1]) + insts[|insts| - 1].size
  }

  /** The offset of instruction `k`. */
  function Start(insts: seq<Inst>, k: nat): nat
    requires k <= |insts|
  {
    Total(insts[..k])
  }

  datatype Result = Result(status: Status, insts: seq<Inst>)

  function Finish(insts: seq<Inst>, minSize: nat): Result {
    Result(if Total(insts) < minSize then OutputTooSmall else Ok, insts)
  }

  /** The loop of `asmkit_decode_block_until` from the instructions decoded so far; `room` is the
      smaller of the caller's capacity and the block limit. */
  function BlockFrom(decode: Decoder, code: seq<u8>, address: u64, minSize: nat, room: nat, insts: seq<Inst>): Result
    requires Total(insts) <= |code|
    decreases room - |insts|
  {
    var total := Total(insts);
    if total >= minSize || |insts| >= room then Finish(insts, minSize)
    else
      var d := InstAt(decode, code, address, total);
      if d.Bad? then Result(d.status, insts)
      else
        TotalOneMore(insts, d.inst);
        var more := insts + [d.inst];
        if d.inst.terminator && total + d.inst.size < minSize then Finish(more, minSize)
        else BlockFrom(decode, code, address, minSize, room, more)
  }

  lemma TotalOneMore(insts: seq<Inst>, inst: Inst)
    ensures Total(insts + [inst]) == Total(insts) + inst.size
    ensures forall k :: 0 <= k <= |insts| ==> Start(insts + [inst], k) == Start(insts, k)
  {
    assert (insts + [inst])[..|insts|] == insts;
    assert forall k :: 0 <= k <= |insts| ==> (insts + [inst])[..k] == insts[..k];
  }

  lemma StartOfAll(insts: seq<Inst>)
    ensures Start(insts, |insts|) == Total(insts) && Start(insts, 0) == 0
  {
    assert insts[..|insts|] == insts;
  }

  function Room(capacity: nat): nat {
    if capacity < MAX_BLOCK then capacity else MAX_BLOCK
  }

  function WholeBlock(decode: Decoder, code: seq<u8>, address: u64, minSize: nat, room: nat): Result {
    BlockFrom(decode, code, address, minSize, room, [])
  }

  /** One turn of the loop. */
  lemma OneTurn(decode: Decoder, code: seq<u8>, address: u64, minSize: nat, room: nat, insts: seq<Inst>)
    requires Total(insts) <= |code| && Total(insts) < minSize && |insts| < room
    ensures var d := InstAt(decode, code, address, Total(insts));
            if d.Bad? then BlockFrom(decode, code, address, minSize, room, insts) == Result(d.status, insts)
            else
              && Total(insts + [d.inst]) == Total(insts) + d.inst.size <= |code|
              && BlockFrom(decode, code, address, minSize, room, insts)
                 == if d.inst.terminator && Total(insts + [d.inst]) < minSize then Result(OutputTooSmall, insts + [d.inst])
                    else BlockFrom(decode, code, address, minSize, room, insts + [d.inst])
  {
    hide Total, InstAt;
    if InstAt(decode, code, address, Total(insts)).Good? {
      TotalOneMore(insts, InstAt(decode, code, address, Total(insts)).inst);
    }
  }

  lemma LastTurn(decode: Decoder, code: seq<u8>, address: u64, minSize: nat, room: nat, insts: seq<Inst>)
    requires Total(insts) <= |code| && (Total(insts) >= minSize || |insts| >= room)
    ensures BlockFrom(decode, code, address, minSize, room, insts)
         == Result(if Total(insts) < minSize then OutputTooSmall else Ok, insts)
  {
  }

  /** `asmkit_decode_block_until`. */
  method DecodeBlockUntil(decode: Decoder, code: seq<u8>, address: u64, minSize: nat, out: array<Inst>)
    returns (status: Status, count: nat, total: nat)
    modifies out
    ensures out.Length == 0 ==> status == InvalidArgument && count == 0 && total == 0
    ensures out.Length > 0 ==>
              && count <= out.Length && count <= 32
              && total == Total(out[..count])
              && Result(status, out[..count]) == WholeBlock(decode, code, address, minSize, Room(out.Length))
  {
    if out.Length == 0 {
      return InvalidArgument, 0, 0;
    }
    hide InstAt, Total, Wrap, BlockFrom, Room;
    count, total := 0, 0;
    assert out[..0] == [];
    EmptyTotal();
    ghost var whole := WholeBlock(decode, code, address, minSize, Room(out.Length));
    while total < minSize && count < out.Length && count < MAX_BLOCK
      invariant 0 <= count <= out.Length && count <= MAX_BLOCK
      invariant total == Total(out[..count]) <= |code|
      invariant whole == BlockFrom(decode, code, address, minSize, Room(out.Length), out[..count])
      decreases MAX_BLOCK - count
    {
      ghost var before := out[..count];
      var decoded := InstAt(decode, code, address, total);
      OneTurn(decode, code, address, minSize, Room(out.Length), before);
      if decoded.Bad? {
        return decoded.status, count, total;
      }
      out[count] := decoded.inst;
      assert out[..count + 1] == before + [decoded.inst];
      total := total + decoded.inst.size;
      count := count + 1;
      if decoded.inst.terminator && total < minSize {
        return OutputTooSmall, count, total;
      }
    }
    LastTurn(decode, code, address, minSize, Room(out.Length), out[..count]);
    status := if total < minSize then OutputTooSmall else Ok;
  }

  lemma EmptyTotal()
    ensures Total([]) == 0
  {
  }

  // ---- what a block is

  /** The decoder reads the instruction at offset `at`, at the address that this offset has, and it fits the code. */
  ghost predicate TileAt(decode: Decoder, code: seq<u8>, address: u64, at: nat, inst: Inst) {
    && at < at + inst.size <= |code|
    && decode(code[at..], Wrap(address + at)) == Good(inst)
  }

  /** The instructions are what the decoder reads back to back from the start of the code. */
  ghost predicate Tiles(decode: Decoder, code: seq<u8>, address: u64, insts: seq<Inst>) {
    forall k :: 0 <= k < |insts| ==> TileAt(decode, code, address, Start(insts, k), insts[k])
  }

  /** No proper prefix reaches `minSize`. */
  ghost predicate Minimal(insts: seq<Inst>, minSize: nat) {
    forall k :: 0 <= k < |insts| ==> Start(insts, k) < minSize
  }

  /** The shortest run of instructions that reaches `minSize`, with no terminator before its end. */
  ghost predicate IsBlock(decode: Decoder, code: seq<u8>, address: u64, minSize: nat, room: nat, insts: seq<Inst>) {
    && Tiles(decode, code, address, insts)
    && |insts| <= room
    && Total(insts) >= minSize
    && Minimal(insts, minSize)
    && (forall k :: 0 <= k < |insts| - 1 ==> !insts[k].terminator)
  }

  /** What holds of the instructions so far when the loop goes on. */
  ghost predicate InProgress(decode: Decoder, code: seq<u8>, address: u64, minSize: nat, room: nat, insts: seq<Inst>) {
    && Tiles(decode, code, address, insts)
    && |insts| <= room
    && Total(insts) <= |code|
    && Minimal(insts, minSize)
    && (forall k :: 0 <= k < |insts| ==> insts[k].terminator ==> k == |insts| - 1 && Total(insts) >= minSize)
  }

  lemma OneMoreInProgress(decode: Decoder, code: seq<u8>, address: u64, minSize: nat, room: nat, insts: seq<Inst>, inst: Inst)
    requires InProgress(decode, code, address, minSize, room, insts)
    requires Total(insts) < minSize && |insts| < room
    requires TileAt(decode, code, address, Total(insts), inst)
    requires inst.terminator ==> Total(insts) + inst.size >= minSize
    ensures InProgress(decode, code, address, minSize, room, insts + [inst])
  {
    hide Total, Start, Wrap;
    TotalOneMore(insts, inst);
    OneMoreTile(decode, code, address, insts, inst);
    StartOfAll(insts);
  }

  lemma OneMoreTile(decode: Decoder, code: seq<u8>, address: u64, insts: seq<Inst>, inst: Inst)
    requires Tiles(decode, code, address, insts) && TileAt(decode, code, address, Total(insts), inst)
    ensures Tiles(decode, code, address, insts + [inst])
  {
    hide Total, TileAt, Start;
    var more := insts + [inst];
    TotalOneMore(insts, inst);
    StartOfAll(insts);
    forall k | 0 <= k < |more| ensures TileAt(decode, code, address, Start(more, k), more[k]) {
      if k < |insts| { assert more[k] == insts[k]; }
    }
  }

  lemma TileIsRead(decode: Decoder, code: seq<u8>, address: u64, at: nat, inst: Inst)
    requires TileAt(decode, code, address, at, inst)
    ensures inst.size > 0 && at + inst.size <= |code| && InstAt(decode, code, address, at) == Good(inst)
  {
  }

  /** A successful loop ends in a block that extends what it started from. */
  lemma {:induction false} LoopIsBlock(decode: Decoder, code: seq<u8>, address: u64, minSize: nat, room: nat, insts: seq<Inst>)
    requires ValidDecoder(decode) && InProgress(decode, code, address, minSize, room, insts)
    requires BlockFrom(decode, code, address, minSize, room, insts).status == Ok
    ensures IsBlock(decode, code, address, minSize, room, BlockFrom(decode, code, address, minSize, room, insts).insts)
    decreases room - |insts|
  {
    hide Total, Start;
    var total := Total(insts);
    if total < minSize && |insts| < room {
      var d := InstAt(decode, code, address, total);
      if d.Good? {
        TotalOneMore(insts, d.inst);
        if !(d.inst.terminator && total + d.inst.size < minSize) {
          OneMoreInProgress(decode, code, address, minSize, room, insts, d.inst);
          LoopIsBlock(decode, code, address, minSize, room, insts + [d.inst]);
        }
      }
    }
  }

  /** The offsets of a tiling grow and stay inside the code. */
  lemma StartBounds(decode: Decoder, code: seq<u8>, address: u64, insts: seq<Inst>, k: nat)
    requires Tiles(decode, code, address, insts) && k < |insts|
    ensures Start(insts, k) < Start(insts, k + 1) == Start(insts, k) + insts[k].size <= |code|
    ensures insts[..k + 1] == insts[..k] + [insts[k]]
  {
    assert TileAt(decode, code, address, Start(insts, k), insts[k]);
    TileIsRead(decode, code, address, Start(insts, k), insts[k]);
    assert insts[..k + 1] == insts[..k] + [insts[k]];
    TotalOneMore(insts[..k], insts[k]);
  }

  lemma StartInside(decode: Decoder, code: seq<u8>, address: u64, insts: seq<Inst>, k: nat)
    requires Tiles(decode, code, address, insts) && k <= |insts|
    ensures Start(insts, k) <= |code|
  {
    if k == 0 { StartOfAll(insts); } else { StartBounds(decode, code, address, insts, k - 1); }
  }

  /** From any prefix of a block the loop arrives at the block. */
  lemma {:induction false} LoopFindsBlock(decode: Decoder, code: seq<u8>, address: u64, minSize: nat, room: nat,
                                          insts: seq<Inst>, n: nat)
    requires IsBlock(decode, code, address, minSize, room, insts) && n <= |insts|
    ensures Total(insts[..n]) <= |code|
    ensures BlockFrom(decode, code, address, minSize, room, insts[..n]) == Result(Ok, insts)
    decreases |insts| - n
  {
    StartInside(decode, code, address, insts, n);
    StartOfAll(insts);
    hide Total, InstAt, TileAt, Wrap;
    if n == |insts| {
      assert insts[..n] == insts;
    } else {
      LoopFindsBlock(decode, code, address, minSize, room, insts, n + 1);
      StartBounds(decode, code, address, insts, n);
      TileIsRead(decode, code, address, Start(insts, n), insts[n]);
      LastReaches(insts, n, minSize);
    }
  }

  lemma LastReaches(insts: seq<Inst>, n: nat, minSize: nat)
    requires n < |insts| && Total(insts) >= minSize && Minimal(insts, minSize)
    requires forall k :: 0 <= k < |insts| - 1 ==> !insts[k].terminator
    ensures insts[n].terminator ==> n == |insts| - 1 && Start(insts, n + 1) >= minSize
  {
    StartOfAll(insts);
  }

  /** The loop succeeds exactly when there is a block, and then returns it. */
  lemma BlockMeaning(decode: Decoder, code: seq<u8>, address: u64, minSize: nat, room: nat, insts: seq<Inst>)
    requires ValidDecoder(decode)
    ensures WholeBlock(decode, code, address, minSize, room) == Result(Ok, insts)
       <==> IsBlock(decode, code, address, minSize, room, insts)
  {
    if IsBlock(decode, code, address, minSize, room, insts) {
      LoopFindsBlock(decode, code, address, minSize, room, insts, 0);
      assert insts[..0] == [];
    }
    if WholeBlock(decode, code, address, minSize, room) == Result(Ok, insts) {
      LoopIsBlock(decode, code, address, minSize, room, []);
    }
  }

  /** A decoder that reports each instruction at the address that it was given. */
  ghost predicate ReportsAddress(decode: Decoder) {
    forall code: seq<u8>, address: u64 :: decode(code, address).Good? ==> decode(code, address).inst.address == address
  }

  /** The instructions of a block have the addresses that follow from the sizes of those before them. */
  lemma BlockAddresses(decode: Decoder, code: seq<u8>, address: u64, minSize: nat, room: nat, insts: seq<Inst>, k: nat)
    requires ValidDecoder(decode) && ReportsAddress(decode) && k < |insts|
    requires WholeBlock(decode, code, address, minSize, room) == Result(Ok, insts)
    ensures insts[k].address == Wrap(address + Start(insts, k))
  {
    hide WholeBlock, Wrap, Start;
    BlockMeaning(decode, code, address, minSize, room, insts);
    assert TileAt(decode, code, address, Start(insts, k), insts[k]);
  }

  // ---- when there is no block

  /** What the decoder finds at the end of the code read so far ends the block with `status`: it fails, or gives an
      instruction that is empty or longer than what is left. */
  predicate NoInst(d: Decoded, left: nat, status: Status) {
    d == Bad(status) || (d.Good? && (d.inst.size == 0 || d.inst.size > left) && status == DecodeFailed)
  }

  /** Why a block was not finished: no room for another instruction or a terminator before the end, or nothing to
      decode at the address reached. */
  ghost predicate IsStopped(decode: Decoder, code: seq<u8>, address: u64, minSize: nat, room: nat, r: Result) {
    var at := Total(r.insts);
    && Tiles(decode, code, address, r.insts)
    && |r.insts| <= room && at < minSize && at <= |code|
    && (forall k :: 0 <= k < |r.insts| - 1 ==> !r.insts[k].terminator)
    && if |r.insts| == room || (r.insts != [] && r.insts[|r.insts| - 1].terminator) then r.status == OutputTooSmall
       else NoInst(decode(code[at..], Wrap(address + at)), |code| - at, r.status)
  }

  lemma {:induction false} LoopStops(decode: Decoder, code: seq<u8>, address: u64, minSize: nat, room: nat, insts: seq<Inst>)
    requires InProgress(decode, code, address, minSize, room, insts)
    requires BlockFrom(decode, code, address, minSize, room, insts).status != Ok
    ensures IsStopped(decode, code, address, minSize, room, BlockFrom(decode, code, address, minSize, room, insts))
    decreases room - |insts|
  {
    hide Total, Start, Wrap;
    var total := Total(insts);
    if total < minSize && |insts| < room {
      var d := InstAt(decode, code, address, total);
      if d.Good? {
        TotalOneMore(insts, d.inst);
        if d.inst.terminator && total + d.inst.size < minSize {
          OneMoreTile(decode, code, address, insts, d.inst);
        } else {
          OneMoreInProgress(decode, code, address, minSize, room, insts, d.inst);
          LoopStops(decode, code, address, minSize, room, insts + [d.inst]);
        }
      }
    }
  }

  /** An unsuccessful loop returns the instructions before the one that stopped it, and its reason. */
  lemma StoppedMeaning(decode: Decoder, code: seq<u8>, address: u64, minSize: nat, room: nat)
    requires WholeBlock(decode, code, address, minSize, room).status != Ok
    ensures IsStopped(decode, code, address, minSize, room, WholeBlock(decode, code, address, minSize, room))
  {
    LoopStops(decode, code, address, minSize, room, []);
  }

  /** Asking for any size between the original one and what the block takes gives the same block. */
  lemma SameBlock(decode: Decoder, code: seq<u8>, address: u64, minSize: nat, room: nat, insts: seq<Inst>, other: nat)
    requires ValidDecoder(decode)
    requires WholeBlock(decode, code, address, minSize, room) == Result(Ok, insts)
    requires minSize <= other <= Total(insts)
    ensures WholeBlock(decode, code, address, other, room) == Result(Ok, insts)
  {
    hide WholeBlock, Tiles;
    BlockMeaning(decode, code, address, minSize, room, insts);
    BlockMeaning(decode, code, address, other, room, insts);
  }

  /** Asking for more only adds instructions at the end. */
  lemma LargerBlock(decode: Decoder, code: seq<u8>, address: u64, small: nat, large: nat, room: nat,
                    fewer: seq<Inst>, more: seq<Inst>)
    requires IsBlock(decode, code, address, small, room, fewer) && IsBlock(decode, code, address, large, room, more)
    requires small <= large
    ensures fewer <= more
  {
    StartOfAll(fewer);
    StartOfAll(more);
    hide Total, InstAt;
    var n := 0;
    assert fewer[..0] == more[..0];
    while n < |fewer| && n < |more|
      invariant 0 <= n <= |fewer| && n <= |more|
      invariant fewer[..n] == more[..n]
    {
      assert TileAt(decode, code, address, Start(fewer, n), fewer[n]);
      assert TileAt(decode, code, address, Start(more, n), more[n]);
      assert fewer[..n + 1] == fewer[..n] + [fewer[n]] && more[..n + 1] == more[..n] + [more[n]];
      n := n + 1;
    }
    assert more[..|more|] == more;
    ShortOf(fewer, small, n);
  }

  lemma ShortOf(insts: seq<Inst>, minSize: nat, n: nat)
    requires Minimal(insts, minSize)
    ensures n < |insts| ==> Start(insts, n) < minSize
  {
  }
}
