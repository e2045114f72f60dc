/** A diff made on one side and replayed on the other. */
module RoundTrip {
  import opened Bytes
  import opened Replay
  import opened DiffFormat
  import opened DiffKernel
  import opened DiffApply

  lemma {:induction false} ExplainsWithin(rs: seq<ByteRecord>, was: seq<Byte>, now: seq<Byte>, base: nat, upto: nat)
    requires upto <= |was| == |now| && Explains(rs, was, now, base, upto)
    ensures RecordsWithin(rs, base, base + upto)
    decreases |rs|
  {
    if rs != [] {
      var init, r := rs[..|rs| - 1], rs[|rs| - 1];
      ExplainsWithin(init, was, now, base, r.at - base);
      assert forall i :: 0 <= i < |rs| - 1 ==> rs[i] == init[i];
    }
  }

  /** The bytes of a diff decode to its records, which turn the old contents into the new. */
  lemma DiffRoundTrip(rs: seq<ByteRecord>, was: seq<Byte>, now: seq<Byte>, base: nat)
    requires AllEncodable(rs) && |was| == |now| && Explains(rs, was, now, base, |was|)
    ensures Applicable(Encode(rs), base, base + |was|) && Decode(Encode(rs)) == Some(rs)
    ensures Override(was, base, FullEffect(rs, [], base + |was|)) == now
  {
    DecodeEncode(rs);
    ExplainsWithin(rs, was, now, base, |was|);
    ExplainsEffect(rs, was, now, base, |was|);
    hide Explains, Encode, Decode, Effect;
    var nothing: seq<Byte> := [];
    assert Writes(Record(base + |was|, nothing)) == map[];
    assert Effect(rs) + map[] == Effect(rs);
    assert forall i {:trigger now[i]} :: 0 <= i < |now| ==> now[i] == Override(was, base, Effect(rs))[i];
  }

  /**
   * Diff an interval and replay the diff on any copy of the old contents: sender
   * and receiver end up with the new contents.
   */
  method ReplicateSegment(target: seq<Byte>, reference: array<Byte>, copy: array<Byte>, base: nat, skipGap: nat,
                          k: LineRule)
    requires Sound(k) && skipGap >= 16 && reference != copy
    requires |target| % 64 == 0 && base % 4 == 0 && base + |target| <= U32_LIMIT
    requires |target| == reference.Length && copy[..] == reference[..]
    modifies reference, copy
    ensures reference[..] == target && copy[..] == target
  {
    hide Sound, Explains, Encode, Decode, AllEncodable, Applicable, Override, FullEffect;
    var diff := new Byte[|target| + 8];
    ghost var was := reference[..];
    var len, rs := ConstructSegment(diff, 0, target, reference, 0, base, skipGap, k);
    WholePatch(was, target);
    assert was[0..|target|] == was;
    DiffRoundTrip(rs, was, target, base);
    EncodedWords(rs);
    assert diff[..][0..len] == diff[..len];
    assert diff[..len][..len] == diff[..len] && TailOf(diff[..len], 0) == [];
    AcceptsWellFormed(diff[..len], len, 8, base, base + copy.Length);
    hide Accepts, Acceptable;
    var r := ApplyDiffOne(diff[..len], 0, base, copy);
  }

  lemma WholePatch(s: seq<Byte>, v: seq<Byte>)
    requires |v| == |s|
    ensures Patched(s, 0, v) == v
  {
  }
}
