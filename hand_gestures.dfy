/**
 * The landmark rule that turns one camera frame into a gesture label
 * (`HandGestureDetector.infer_frame`, server/app/services/gestures.py).
 * The hand-pose model is not modelled: its output, the landmarks of every
 * detected hand, is the input.
 */
module HandGestures {

  /** The labels the detector reports and the client reacts to. */
  datatype Gesture = NoneGesture | NextGesture | PrevGesture

  /**
   * The vertical coordinates of the 21 landmarks of one detected hand,
   * normalised to the image height: a smaller value is higher in the image.
   */
  type Hand = ys: seq<real> | |ys| == 21 witness seq(21, _ => 0.0)

  const IndexTip: nat := 8
  const IndexPip: nat := 6
  const MiddleTip: nat := 12
  const MiddlePip: nat := 10

  /** A finger is up when its tip is strictly above its middle (PIP) joint; level counts as down. */
  predicate IsFingerUp(hand: Hand, tip: nat, pip: nat)
    requires tip < 21 && pip < 21
    ensures hand[tip] == hand[pip] ==> !IsFingerUp(hand, tip, pip)
  {
    hand[tip] < hand[pip]
  }

  predicate IndexUp(hand: Hand) {
    IsFingerUp(hand, IndexTip, IndexPip)
  }

  predicate MiddleUp(hand: Hand) {
    IsFingerUp(hand, MiddleTip, MiddlePip)
  }

  /**
   * The label for one frame, given the detected hands in the model's order:
   * no hand gives none; otherwise only the first hand counts, and index and
   * middle up give next, index up alone gives prev, index down gives none.
   */
  function InferFrame(hands: seq<Hand>): (g: Gesture)
    ensures hands == [] ==> g == NoneGesture
    ensures hands != [] ==> (g == NextGesture <==> hands[0][8] < hands[0][6] && hands[0][12] < hands[0][10])
    ensures hands != [] ==> (g == PrevGesture <==> hands[0][8] < hands[0][6] && hands[0][12] >= hands[0][10])
    ensures hands != [] ==> (g == NoneGesture <==> hands[0][8] >= hands[0][6])
  {
    if hands == [] then NoneGesture
    else
      var hand := hands[0];
      if IndexUp(hand) && MiddleUp(hand) then NextGesture
      else if IndexUp(hand) && !MiddleUp(hand) then PrevGesture
      else NoneGesture
  }

  /** Hands after the first never change the label. */
  lemma OnlyFirstHandCounts(first: Hand, others: seq<Hand>, others': seq<Hand>)
    ensures InferFrame([first] + others) == InferFrame([first] + others')
  {
  }

  /** With the index finger down, the middle finger does not matter. */
  lemma IndexDownIsNone(hand: Hand)
    requires hand[IndexTip] >= hand[IndexPip]
    ensures InferFrame([hand]) == NoneGesture
  {
  }
}
