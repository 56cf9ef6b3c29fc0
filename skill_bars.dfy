/** animateSkillBars as a value: each bar's width becomes its data-level
    attribute followed by "%". Portfolio.Page does this in place. */
module SkillBars {

  /** An element of class `skill-progress`: its data-level attribute and its
      inline width. */
  datatype SkillBar = SkillBar(level: string, width: string)

  /** A bar whose width already shows its level. */
  predicate AtLevel(b: SkillBar) {
    b.width == b.level + "%"
  }

  /** The bars after animateSkillBars. */
  function Animated(bars: seq<SkillBar>): (r: seq<SkillBar>)
    ensures |r| == |bars|
  {
    seq(|bars|, k requires 0 <= k < |bars| => bars[k].(width := bars[k].level + "%"))
  }

  /** Afterwards every bar is at its level and no level has changed; a bar
      already at its level is left exactly as it was. */
  lemma {:induction false} AnimatedBarsAtLevel(bars: seq<SkillBar>)
    ensures forall k :: 0 <= k < |bars| ==>
      Animated(bars)[k].level == bars[k].level && AtLevel(Animated(bars)[k])
    ensures forall k :: 0 <= k < |bars| && AtLevel(bars[k]) ==> Animated(bars)[k] == bars[k]
  {
    forall k | 0 <= k < |bars| ensures Animated(bars)[k] == bars[k].(width := bars[k].level + "%") { }
  }

  /** Animating again changes nothing. */
  lemma {:induction false} AnimateIdempotent(bars: seq<SkillBar>)
    ensures Animated(Animated(bars)) == Animated(bars)
  {
    AnimatedBarsAtLevel(bars);
    AnimatedBarsAtLevel(Animated(bars));
  }

  /** The boundary levels 0 and 100 render as "0%" and "100%". */
  lemma BoundaryLevels()
    ensures Animated([SkillBar("0", ""), SkillBar("100", "")]) ==
      [SkillBar("0", "0%"), SkillBar("100", "100%")]
  {
    var r := Animated([SkillBar("0", ""), SkillBar("100", "")]);
    assert r[0] == SkillBar("0", "0%");
    assert r[1] == SkillBar("100", "100%");
  }
}
