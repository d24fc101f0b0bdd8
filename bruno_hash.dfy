/**
 * `BrunoHash.GetBrunoHash(byte[] data)`, the library version of the digest:
 * the same computation as `Program.GetBrunoHash`, with its buffers
 * allocated up front and the input passed by value.
 */
module BrunoHash {
  import opened Words
  import opened BitConverter
  import opened SeededRandom
  import opened DigestSpec
  import opened HashSteps
  import Program

  /** Hashes data; a null input hashes like the empty one. */
  method GetBrunoHash(data: array?<byte>, stream: Stream) returns (hash: array<byte>)
    ensures data != null ==> unchanged(data)
    ensures fresh(hash) && hash.Length == 32
    ensures hash[..] == Digest(if data == null then [] else data[..], stream)
  {
    var seeds := new int32[8];
    var br1 := new byte[8];
    var br2 := new byte[8];
    var br3 := new byte[8];
    var br4 := new byte[8];
    var st1, st2 := HalfOffsets(IsLittleEndian);

    var input := data;
    if input == null {
      input := new byte[0];
    }
    ghost var bytes := input[..];
    assert bytes == if data == null then [] else data[..];
    var newData := CopyPadded(input);
    assert newData[..input.Length] == input[..];
    ghost var rounds;
    var p1, p2, p3, p4;
    p1, p2, p3, p4, rounds := FoldLoop(newData, input.Length);
    ghost var folded := Acc(p1, p2, p3, p4);

    FillSeeds(seeds, st1, st2, p1, p2, p3, p4);
    p1, p2, p3, p4 := MixLoop(seeds, p1, p2, p3, p4, br1, br2, br3, br4, stream);
    assert Acc(p1, p2, p3, p4) == Mix(folded, Seeds(folded), stream);

    hash := EmitBytes(p1, p2, p3, p4);
    assert hash[..] == Digest(bytes, stream);
  }

  /**
   * The two implementations agree on every input, null included: they
   * return equal digests, and the console version leaves the caller with
   * the same bytes the library version hashed.
   */
  method AgreesWithProgram(data: array?<byte>, stream: Stream)
    returns (byValue: array<byte>, byRef: array<byte>, dataOut: array<byte>)
    ensures byValue[..] == byRef[..]
    ensures dataOut[..] == if data == null then [] else data[..]
  {
    byValue := GetBrunoHash(data, stream);
    byRef, dataOut := Program.GetBrunoHash(data, stream);
  }
}
