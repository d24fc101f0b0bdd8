/**
 * `Program.GetBrunoHash(ref byte[] data)`, the console program's version of
 * the digest. A null input is replaced by an empty array, which the caller
 * sees through the `ref` parameter.
 */
module Program {
  import opened Words
  import opened BitConverter
  import opened SeededRandom
  import opened DigestSpec
  import opened HashSteps

  /**
   * Hashes data. `dataOut` is what the caller's `ref` variable holds
   * afterwards: data itself, or a fresh empty array in place of null.
   * The input's bytes are never written.
   */
  method GetBrunoHash(data: array?<byte>, stream: Stream) returns (hash: array<byte>, dataOut: array<byte>)
    ensures data != null ==> dataOut == data && unchanged(data)
    ensures data == null ==> fresh(dataOut) && dataOut.Length == 0
    ensures fresh(hash) && hash.Length == 32
    ensures hash[..] == Digest(dataOut[..], stream)
  {
    if data == null {
      dataOut := new byte[0];
    } else {
      dataOut := data;
    }
    var newData := CopyPadded(dataOut);
    assert newData[..dataOut.Length] == dataOut[..];
    ghost var rounds;
    var p1, p2, p3, p4;
    p1, p2, p3, p4, rounds := FoldLoop(newData, dataOut.Length);
    ghost var folded := Acc(p1, p2, p3, p4);

    var seeds := new int32[8];
    var st1, st2 := HalfOffsets(IsLittleEndian);
    FillSeeds(seeds, st1, st2, p1, p2, p3, p4);
    var br1 := new byte[8];
    var br2 := new byte[8];
    var br3 := new byte[8];
    var br4 := new byte[8];
    p1, p2, p3, p4 := MixLoop(seeds, p1, p2, p3, p4, br1, br2, br3, br4, stream);
    assert Acc(p1, p2, p3, p4) == Mix(folded, Seeds(folded), stream);

    hash := EmitBytes(p1, p2, p3, p4);
  }
}
