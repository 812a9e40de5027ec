/** Decoding a buffer of machine code, instruction by instruction. */
module Disassembly {
  import opened Wrappers
  import opened SymbolKinds

  type Byte = b: nat | b < 256

  /** An instruction and its size, or nothing when the bytes are none. */
  type Decoder<!I> = (seq<Byte>, nat) -> Option<(I, nat)>

  /** Instructions have at least one byte and lie in what was read. */
  ghost predicate Proper<I(!new)>(decode: Decoder<I>) {
    forall bytes, at :: decode(bytes, at).Some? ==> 0 < decode(bytes, at).value.1 <= |bytes|
  }

  /** No instruction depends on bytes past the longest one. */
  ghost predicate Local<I(!new)>(decode: Decoder<I>, maxLength: nat) {
    forall bytes, at | |bytes| > maxLength :: decode(bytes[..maxLength], at) == decode(bytes, at)
  }

  /** What decoding found, and where it ended. */
  datatype Listing<I> = Listing(insts: seq<I>, offsets: seq<nat>, end: nat, ok: bool)

  /** Decodes from `at` on, looking at all the rest of the buffer each time. */
  ghost function DecodeFrom<I(!new)>(decode: Decoder<I>, code: seq<Byte>, at: nat): (l: Listing<I>)
    requires Proper(decode) && at <= |code|
    ensures |l.insts| == |l.offsets|
    decreases |code| - at
  {
    if at == |code| then Listing([], [], at, true)
    else
      var d := decode(code[at..], at);
      if d.None? then Listing([], [], at, false)
      else
        var rest := DecodeFrom(decode, code, at + d.value.1);
        Listing([d.value.0] + rest.insts, [at] + rest.offsets, rest.end, rest.ok)
  }

  /** A listing after what was listed before it. */
  ghost function Join<I>(insts: seq<I>, offsets: seq<nat>, rest: Listing<I>): Listing<I> {
    Listing(insts + rest.insts, offsets + rest.offsets, rest.end, rest.ok)
  }

  lemma DecodeStep<I(!new)>(decode: Decoder<I>, code: seq<Byte>, at: nat, insts: seq<I>, offsets: seq<nat>)
    requires Proper(decode) && at < |code|
    ensures var d := decode(code[at..], at);
            var all := Join(insts, offsets, DecodeFrom(decode, code, at));
            && (d.None? ==> all == Listing(insts, offsets, at, false))
            && (d.Some? ==> 0 < d.value.1 <= |code| - at
                            && all == Join(insts + [d.value.0], offsets +
                                           [at], DecodeFrom(decode, code, at + d.value.1)))
  {
    var d := decode(code[at..], at);
    if d.Some? {
      var rest := DecodeFrom(decode, code, at + d.value.1);
      assert insts + ([d.value.0] + rest.insts) == insts + [d.value.0] + rest.insts;
      assert offsets + ([at] + rest.offsets) == offsets + [at] + rest.offsets;
    }
  }

  lemma DecodeEnd<I(!new)>(decode: Decoder<I>, code: seq<Byte>, insts: seq<I>, offsets: seq<nat>)
    requires Proper(decode)
    ensures Join(insts, offsets, DecodeFrom(decode, code, |code|)) == Listing(insts, offsets, |code|, true)
  {
  }

  /** Reads at most the longest instruction at a time. What was decoded before an
      error stays in the outputs, and the error is where decoding failed. */
  method Disassemble<I(!new)>(code: seq<Byte>, decode: Decoder<I>, maxLength: nat, insts: SmallVector<I>,
                       offsets: SmallVector?<nat>)
    returns (r: Result<(), nat>)
    requires Proper(decode) && Local(decode, maxLength)
    requires offsets == null || insts as object != offsets as object
    modifies insts, offsets
    ensures var l := DecodeFrom(decode, code, 0);
            && insts.items == old(insts.items) + l.insts
            && (offsets != null ==> offsets.items == old(offsets.items) + l.offsets)
            && r == if l.ok then Ok(()) else Err(l.end)
  {
    hide DecodeFrom, Proper, Local;
    var idx, currentOffset := 0, 0;
    ghost var all := DecodeFrom(decode, code, 0);
    ghost var doneInsts: seq<I>, doneOffsets: seq<nat> := [], [];
    assert Join(doneInsts, doneOffsets, all) == all;
    while idx < |code|
      invariant idx == currentOffset <= |code|
      invariant insts.items == old(insts.items) + doneInsts
      invariant offsets != null ==> offsets.items == old(Held(offsets)) + doneOffsets
      invariant Proper(decode) && all == Join(doneInsts, doneOffsets, DecodeFrom(decode, code, idx))
      decreases |code| - idx
    {
      var readSize := if idx + maxLength < |code| then maxLength else |code| - idx;
      var readBytes := code[idx..idx + readSize];
      WindowEnough(decode, code, idx, maxLength);
      var d := decode(readBytes, currentOffset);
      DecodeStep(decode, code, idx, doneInsts, doneOffsets);
      if d.None? {
        return Err(currentOffset);
      }
      var (inst, instSize) := d.value;
      if offsets != null {
        offsets.PushBack(currentOffset);
      }
      doneInsts, doneOffsets := doneInsts + [inst], doneOffsets + [currentOffset];
      idx := idx + instSize;
      currentOffset := currentOffset + instSize;
      insts.PushBack(inst);
    }
    DecodeEnd(decode, code, doneInsts, doneOffsets);
    return Ok(());
  }

  /** The window decodes like the whole rest of the buffer. */
  lemma WindowEnough<I(!new)>(decode: Decoder<I>, code: seq<Byte>, at: nat, maxLength: nat)
    requires Local(decode, maxLength) && at < |code|
    ensures var readSize := if at + maxLength < |code| then maxLength else |code| - at;
            decode(code[at..at + readSize], at) == decode(code[at..], at)
  {
    if at + maxLength < |code| {
      assert code[at..at + maxLength] == code[at..][..maxLength];
    } else {
      assert code[at..|code|] == code[at..];
    }
  }

  /** When decoding succeeds, the instructions cover the buffer from its start to
      its end, each beginning where the one before it stops. */
  lemma {:induction false} Tiles<I(!new)>(decode: Decoder<I>, code: seq<Byte>, at: nat, i: nat)
    requires Proper(decode) && at <= |code| && DecodeFrom(decode, code, at).ok
    ensures var l := DecodeFrom(decode, code, at);
            && l.end == |code| && (at < |code| ==> l.offsets != [] && l.offsets[0] == at) &&
                (at == |code| ==> l.offsets == [])
            && (i < |l.offsets| ==>
                  && l.offsets[i] < |code|
                  && var d := decode(code[l.offsets[i]..], l.offsets[i]);
                     d.Some? && d.value.0 == l.insts[i] &&
                         l.offsets[i] + d.value.1 == if i + 1 < |l.offsets| then l.offsets[i + 1] else |code|)
    decreases |code| - at
  {
    if at < |code| {
      var next := at + decode(code[at..], at).value.1;
      Tiles(decode, code, next, if i > 0 then i - 1 else 0);
    }
  }

  // ---- decoding what was encoded

  /** The bytes decode to the instruction whatever comes after them. */
  ghost predicate Encodes<I(!new)>(decode: Decoder<I>, bytes: seq<Byte>, inst: I) {
    forall more, at :: decode(bytes + more, at) == Some((inst, |bytes|))
  }

  function Concat(parts: seq<seq<Byte>>): seq<Byte> {
    if parts == [] then [] else parts[0] + Concat(parts[1..])
  }

  /** Where each part begins. */
  function Starts(parts: seq<seq<Byte>>, at: nat): (s: seq<nat>)
    ensures |s| == |parts|
  {
    if parts == [] then [] else [at] + Starts(parts[1..], at + |parts[0]|)
  }

  /** Decoding encodings one after the other gives the instructions back, at the
      places where their encodings begin. */
  lemma {:induction false} DecodesConcatenation<I(!new)>(decode: Decoder<I>, before: seq<Byte>, parts: seq<seq<Byte>>,
                                                  insts: seq<I>)
    requires Proper(decode) && |insts| == |parts| && forall i | 0 <= i < |parts| :: Encodes(decode, parts[i], insts[i])
    ensures DecodeFrom(decode, before + Concat(parts), |before|)
            == Listing(insts, Starts(parts, |before|), |before| + |Concat(parts)|, true)
    decreases |parts|
  {
    var code, at := before + Concat(parts), |before|;
    if parts != [] {
      assert Encodes(decode, parts[0], insts[0]);
      assert code[at..] == parts[0] + Concat(parts[1..]);
      assert decode(code[at..], at) == Some((insts[0], |parts[0]|));
      assert before + parts[0] + Concat(parts[1..]) == code;
      DecodesConcatenation(decode, before + parts[0], parts[1..], insts[1..]);
      assert [insts[0]] + insts[1..] == insts;
    }
  }
}
