/** What the CRC check promises about a frame damaged on the wire. */
module ErrorDetection {
  import opened BitRegister
  import opened Crc

  /** Where two frames of one length differ, bit by transmitted bit. */
  function Damage(sent: seq<byte>, received: seq<byte>): (e: seq<bool>)
    requires |sent| == |received|
    ensures |e| == 8 * |sent|
  {
    Xor(BitsOf(sent), BitsOf(received))
  }

  /** A damaged frame passes exactly when the damage by itself leaves nothing in the register. */
  lemma {:induction false} DamageDecides(sent: seq<byte>, received: seq<byte>)
    requires |sent| == |received| && ValidCrc(sent)
    ensures ValidCrc(received) <==> FeedAll(ZERO, Damage(sent, received)) == ZERO
  {
    var c, x, y := BitsOfWord(INITIAL), BitsOf(sent), BitsOf(received);
    ValidMeansZeroRegister(sent);
    ValidMeansZeroRegister(received);
    FeedAllIsLinear(c, c, x, y);
    XorCancels(c, c);
    XorZero(FeedAll(c, y));
  }

  /** Any damage confined to sixteen consecutive transmitted bits is caught, whatever the frame and its length. */
  lemma {:induction false} BurstsAreDetected(sent: seq<byte>, received: seq<byte>, from: nat, k: nat)
    requires |sent| == |received| && ValidCrc(sent)
    requires k < 8 * |sent| && BitsOf(sent)[k] != BitsOf(received)[k]
    requires forall i :: 0 <= i < 8 * |sent| && BitsOf(sent)[i] != BitsOf(received)[i] ==> from <= i < from + 16
    ensures !ValidCrc(received)
  {
    var e := Damage(sent, received);
    assert e[k];
    BurstLeavesTrace(e, from, k);
    DamageDecides(sent, received);
  }

  /** Any odd number of flipped bits is caught, wherever they fall. */
  lemma OddFlipsAreDetected(sent: seq<byte>, received: seq<byte>)
    requires |sent| == |received| && ValidCrc(sent) && Odd(Damage(sent, received))
    ensures !ValidCrc(received)
  {
    OddErrorLeavesTrace(Damage(sent, received));
    DamageDecides(sent, received);
  }
}
