/**
 The answer scale's list of choices: one choice per integer from the
 scale's minimum to its maximum, labelled by the scale's label for that
 value's decimal text, or by the text itself.
 */
module ScaleChoices {
  import opened Domain
  import Text

  datatype Choice = Choice(value: int, text: string)

  /** `labels[String(value)] ?? String(value)`. */
  function Label(labels: map<string, string>, v: int): (r: string)
    ensures Text.IntToString(v) in labels ==> r == labels[Text.IntToString(v)]
    ensures Text.IntToString(v) !in labels ==> r == Text.IntToString(v)
  {
    var key := Text.IntToString(v);
    if key in labels then labels[key] else key
  }

  /** `DEFAULT_SCALE` built from `scale`. `Array.from` clamps a negative
      length to zero, so an inverted scale has no choices. */
  function DefaultScale(scale: Scale): (r: seq<Choice>)
    ensures |r| == if scale.max < scale.min then 0 else scale.max - scale.min + 1
    ensures |r| > 0 ==> r[0].value == scale.min && r[|r| - 1].value == scale.max
    ensures forall i :: 0 <= i < |r| ==> scale.min <= r[i].value <= scale.max
    ensures forall i :: 0 < i < |r| ==> r[i].value == r[i - 1].value + 1
    ensures forall i :: 0 <= i < |r| ==> r[i].text == Label(scale.labels, r[i].value)
  {
    var n := if scale.max - scale.min + 1 < 0 then 0 else scale.max - scale.min + 1;
    seq(n, i requires 0 <= i < n => Choice(scale.min + i, Label(scale.labels, scale.min + i)))
  }

  /** Consecutive values make the list strictly ascending. */
  lemma {:induction false} DefaultScaleAscending(scale: Scale, i: int, j: int)
    requires 0 <= i < j < |DefaultScale(scale)|
    ensures DefaultScale(scale)[i].value < DefaultScale(scale)[j].value
    decreases j - i
  {
    if j > i + 1 {
      DefaultScaleAscending(scale, i, j - 1);
    }
  }

  /** Every value of the scale has exactly one choice, at its offset from
      the minimum, and no other value has one. */
  lemma DefaultScaleCovers(scale: Scale, v: int)
    ensures (exists i :: 0 <= i < |DefaultScale(scale)| && DefaultScale(scale)[i].value == v)
      <==> scale.min <= v <= scale.max
    ensures scale.min <= v <= scale.max ==>
      && DefaultScale(scale)[v - scale.min].value == v
      && forall i :: 0 <= i < |DefaultScale(scale)| && DefaultScale(scale)[i].value == v ==> i == v - scale.min
  {
    var r := DefaultScale(scale);
    assert forall i :: 0 <= i < |r| ==> r[i].value == scale.min + i by {
      forall i | 0 <= i < |r|
        ensures r[i].value == scale.min + i
      {
        ValueAt(scale, i);
      }
    }
    if scale.min <= v <= scale.max {
      assert r[v - scale.min].value == v;
    }
  }

  lemma {:induction false} ValueAt(scale: Scale, i: int)
    requires 0 <= i < |DefaultScale(scale)|
    ensures DefaultScale(scale)[i].value == scale.min + i
    decreases i
  {
    if i > 0 {
      ValueAt(scale, i - 1);
    }
  }

  /** Different choices consult different label keys, so a label map entry
      labels at most one choice. */
  lemma DistinctChoicesDistinctKeys(scale: Scale, i: int, j: int)
    requires 0 <= i < j < |DefaultScale(scale)|
    ensures Text.IntToString(DefaultScale(scale)[i].value) != Text.IntToString(DefaultScale(scale)[j].value)
  {
    DefaultScaleAscending(scale, i, j);
    var r := DefaultScale(scale);
    if Text.IntToString(r[i].value) == Text.IntToString(r[j].value) {
      Text.IntToStringInjective(r[i].value, r[j].value);
    }
  }
}
