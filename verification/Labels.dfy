/** The random row labels: an adjective, a colour and a noun. */
module Labels {
  const ADJECTIVES: seq<string> := ["pretty", "large", "big", "small", "tall", "short", "long", "handsome", "plain",
                                    "quaint", "clean", "elegant", "easy", "angry", "crazy", "helpful", "mushy", "odd",
                                    "unsightly", "adorable", "important", "inexpensive", "cheap", "expensive", "fancy"]
  const COLOURS: seq<string> := ["red", "yellow", "blue", "green", "pink", "brown", "purple", "brown", "white",
                                 "black", "orange"]
  const NOUNS: seq<string> := ["table", "chair", "house", "bbq", "desk", "car", "pony", "cookie", "sandwich",
                               "burger", "pizza", "mouse", "keyboard"]

  /** The three indices `domRandom` draws for one label. */
  type Draw = d: (nat, nat, nat) | d.0 < 25 && d.1 < 11 && d.2 < 13 witness (0, 0, 0)

  function MakeLabel(d: Draw): string {
    ADJECTIVES[d.0] + " " + COLOURS[d.1] + " " + NOUNS[d.2]
  }

  /** The labels of the draws made by one build, in order. */
  function MakeLabels(ds: seq<Draw>): seq<string> {
    seq(|ds|, i requires 0 <= i < |ds| => MakeLabel(ds[i]))
  }

  /** Every label leaves room for five marks in a 48-character column, but not six. */
  lemma LabelFits(d: Draw)
    ensures |MakeLabel(d)| <= 27
    ensures exists worst: Draw :: |MakeLabel(worst)| == 27
  {
    assert forall i :: 0 <= i < 25 ==> |ADJECTIVES[i]| <= 11;
    assert forall i :: 0 <= i < 11 ==> |COLOURS[i]| <= 6;
    assert forall i :: 0 <= i < 13 ==> |NOUNS[i]| <= 8;
    var worst: Draw := (21, 1, 8);
    assert |MakeLabel(worst)| == 27;
  }
}
