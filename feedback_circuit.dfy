/** Inputs of the feedback hash-folding circuit: each feedback text as a zero-padded 32-byte
    block, the list padded to ten blocks, and the folded SHA-256 of the real blocks. SHA-256
    itself is a parameter `H` returning 32-byte digests. */
module FeedbackCircuit {
  import opened Wrappers
  import opened Bytes

  const BlockSize: nat := 32
  /** NUM_INPUTS, the number of blocks the circuit takes. */
  const NumInputs: nat := 10

  type Digest = d: seq<byte> | |d| == 32 witness Zeros(32)

  /** `padTo32Bytes`: the UTF-8 text followed by zeros; `set` throws a RangeError when the
      text needs more than 32 bytes. */
  method PadTo32Bytes(text: string) returns (r: Result<seq<byte>, JsError>)
    ensures r.Success? <==> |Utf8(text)| <= BlockSize
    ensures r.Failure? ==> r.error == RangeError
    ensures r.Success? ==> |r.value| == BlockSize && r.value[..|Utf8(text)|] == Utf8(text)
    ensures r.Success? ==> forall i :: |Utf8(text)| <= i < BlockSize ==> r.value[i] == 0
    ensures r.Success? ==> r.value == Padded(Utf8(text), BlockSize)
  {
    var padded := ZeroPad(Utf8(text), BlockSize);
    if padded.None? {
      return Failure(RangeError);
    }
    r := Success(padded.value);
  }

  /** The `while` loop that appends all-zero blocks until there are ten. */
  method PadToNumInputs(blocks: seq<seq<byte>>) returns (r: seq<seq<byte>>)
    ensures |r| == if |blocks| >= NumInputs then |blocks| else NumInputs
    ensures r[..|blocks|] == blocks
    ensures forall i :: |blocks| <= i < |r| ==> r[i] == Zeros(BlockSize)
  {
    r := blocks;
    while |r| < NumInputs
      invariant |blocks| <= |r| <= if |blocks| >= NumInputs then |blocks| else NumInputs
      invariant r[..|blocks|] == blocks
      invariant forall i :: |blocks| <= i < |r| ==> r[i] == Zeros(BlockSize)
      decreases NumInputs - |r|
    {
      r := r + [Zeros(BlockSize)];
    }
  }

  /** The digests of the blocks, in order (`Promise.all(paddedInputs.map(sha256))`). */
  function Hashes(blocks: seq<seq<byte>>, H: seq<byte> -> Digest): (hs: seq<Digest>)
    ensures |hs| == |blocks| && forall i :: 0 <= i < |blocks| ==> hs[i] == H(blocks[i])
  {
    seq(|blocks|, i requires 0 <= i < |blocks| => H(blocks[i]))
  }

  /** The running digest after the first |hs| digests: the first on its own, then each next
      one hashed after the running digest. */
  function Folded(hs: seq<Digest>, H: seq<byte> -> Digest): Digest
    requires |hs| >= 1
  {
    if |hs| == 1 then hs[0] else H(Folded(hs[..|hs| - 1], H) + hs[|hs| - 1])
  }

  function FoldedHash(blocks: seq<seq<byte>>, H: seq<byte> -> Digest): Digest
    requires |blocks| >= 1
  {
    Folded(Hashes(blocks, H), H)
  }

  /** The same fold written from the front, as `current := sha256(current ‖ hashes[i])`. */
  function FoldFrom(current: Digest, hs: seq<Digest>, H: seq<byte> -> Digest): Digest
    decreases |hs|
  {
    if hs == [] then current else FoldFrom(H(current + hs[0]), hs[1..], H)
  }

  lemma {:induction false} FoldFromSnoc(current: Digest, hs: seq<Digest>, h: Digest, H: seq<byte> -> Digest)
    ensures FoldFrom(current, hs + [h], H) == H(FoldFrom(current, hs, H) + h)
    decreases |hs|
  {
    if hs == [] {
      assert hs + [h] == [h];
    } else {
      assert (hs + [h])[1..] == hs[1..] + [h];
      FoldFromSnoc(H(current + hs[0]), hs[1..], h, H);
    }
  }

  /** The step-by-step definition and the front-to-back fold agree. */
  lemma {:induction false} FoldedIsLeftFold(hs: seq<Digest>, H: seq<byte> -> Digest)
    requires |hs| >= 1
    ensures Folded(hs, H) == FoldFrom(hs[0], hs[1..], H)
  {
    if |hs| > 1 {
      var front := hs[..|hs| - 1];
      FoldedIsLeftFold(front, H);
      assert hs[1..] == front[1..] + [hs[|hs| - 1]];
      FoldFromSnoc(hs[0], front[1..], hs[|hs| - 1], H);
    }
  }

  /** With one block, the folded hash is that block's digest. */
  lemma FoldedHashOne(block: seq<byte>, H: seq<byte> -> Digest)
    ensures FoldedHash([block], H) == H(block)
  {
  }

  /** One more block hashes the previous folded hash with the new block's digest. */
  lemma FoldedHashAppend(blocks: seq<seq<byte>>, block: seq<byte>, H: seq<byte> -> Digest)
    requires |blocks| >= 1
    ensures FoldedHash(blocks + [block], H) == H(FoldedHash(blocks, H) + H(block))
  {
    assert Hashes(blocks + [block], H)[..|blocks|] == Hashes(blocks, H);
  }

  /** `computeFoldedHash`. It reads `hashes[0]` unconditionally, so it needs a block. */
  method ComputeFoldedHash(blocks: seq<seq<byte>>, H: seq<byte> -> Digest) returns (current: Digest)
    requires |blocks| >= 1
    ensures current == FoldedHash(blocks, H)
  {
    var hashes := Hashes(blocks, H);
    current := hashes[0];
    for i := 1 to |hashes|
      invariant current == Folded(hashes[..i], H)
    {
      var concat := new byte[64](_ => 0);
      var ok := SetAt(concat, current, 0);
      ok := SetAt(concat, hashes[i], 32);
      assert concat[..] == current + hashes[i];
      assert hashes[..i + 1][..i] == hashes[..i];
      current := H(concat[..]);
    }
    assert hashes[..|hashes|] == hashes;
  }

  /** The record handed to the circuit. */
  datatype CircuitInput = CircuitInput(inputs: seq<seq<byte>>, actualInputCount: nat, publishedHash: Digest)

  /** The input-building part of `generateProofForHashCircuit`. A text over 32 bytes fails
      in `padTo32Bytes`; with no texts there is no digest, and `Array.from(undefined)`
      throws a TypeError. */
  method GenerateHashCircuitInput(feedback: seq<string>, H: seq<byte> -> Digest)
    returns (r: Result<CircuitInput, JsError>)
    ensures (exists i :: 0 <= i < |feedback| && |Utf8(feedback[i])| > BlockSize) ==> r == Failure(RangeError)
    ensures feedback == [] ==> r == Failure(TypeError)
    ensures r.Success? <==> feedback != [] && forall i :: 0 <= i < |feedback| ==> |Utf8(feedback[i])| <= BlockSize
    ensures r.Success? ==>
      var n := |feedback|;
      && r.value.actualInputCount == n
      && |r.value.inputs| == (if n >= NumInputs then n else NumInputs)
      && (forall i :: 0 <= i < n ==> r.value.inputs[i] == Padded(Utf8(feedback[i]), BlockSize))
      && (forall i :: n <= i < |r.value.inputs| ==> r.value.inputs[i] == Zeros(BlockSize))
      && (forall i :: 0 <= i < |r.value.inputs| ==> |r.value.inputs[i]| == BlockSize)
      && r.value.publishedHash == FoldedHash(r.value.inputs[..n], H)
  {
    var actualInputCount := |feedback|;
    var paddedInputs: seq<seq<byte>> := [];
    for i := 0 to |feedback|
      invariant |paddedInputs| == i
      invariant forall j :: 0 <= j < i ==> |Utf8(feedback[j])| <= BlockSize
      invariant forall j :: 0 <= j < i ==> paddedInputs[j] == Padded(Utf8(feedback[j]), BlockSize)
    {
      var block := PadTo32Bytes(feedback[i]);
      if block.Failure? {
        return Failure(block.error);
      }
      paddedInputs := paddedInputs + [block.value];
    }
    var padded := PadToNumInputs(paddedInputs);
    if actualInputCount == 0 {
      return Failure(TypeError);
    }
    var publishedHash := ComputeFoldedHash(padded[..actualInputCount], H);
    r := Success(CircuitInput(padded, actualInputCount, publishedHash));
  }
}
