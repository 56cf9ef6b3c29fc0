/** The social-icon tooltip: which label an icon gets, chosen from the class
    name of its `<i>` element, and the rule that a tooltip is made once and
    reused. */
module Tooltips {
  import opened Lookup

  /** `sub` occurs in `s` starting at index `i`. */
  predicate OccursAt(s: string, sub: string, i: int) {
    0 <= i && i + |sub| <= |s| && s[i..i + |sub|] == sub
  }

  /** String.prototype.includes. */
  function Includes(s: string, sub: string): (b: bool)
    ensures b <==> exists i :: OccursAt(s, sub, i)
    decreases |s|
  {
    if |sub| > |s| then false
    else if s[..|sub|] == sub then assert OccursAt(s, sub, 0); true
    else
      var b := Includes(s[1..], sub);
      assert b ==> exists i :: OccursAt(s, sub, i) by {
        if b {
          var i :| OccursAt(s[1..], sub, i);
          assert s[1..][i..i + |sub|] == s[i + 1..i + 1 + |sub|];
          assert OccursAt(s, sub, i + 1);
        }
      }
      assert (exists i :: OccursAt(s, sub, i)) ==> b by {
        if exists i :: OccursAt(s, sub, i) {
          var i :| OccursAt(s, sub, i);
          assert i != 0;
          assert s[i..i + |sub|] == s[1..][i - 1..i - 1 + |sub|];
          assert OccursAt(s[1..], sub, i - 1);
        }
      }
      b
  }

  /** The keywords the handler looks for, in the order it tries them, with the
      label each gives. */
  const Keywords: seq<(string, string)> := [
    ("whatsapp", "WhatsApp"), ("phone", "Call"), ("envelope", "Email"),
    ("github", "GitHub"), ("linkedin", "LinkedIn")
  ]

  /** The tooltip text for an icon whose class name is `iconClass`; the empty
      text when no keyword occurs. */
  function Label(iconClass: string): string {
    if Includes(iconClass, "whatsapp") then "WhatsApp"
    else if Includes(iconClass, "phone") then "Call"
    else if Includes(iconClass, "envelope") then "Email"
    else if Includes(iconClass, "github") then "GitHub"
    else if Includes(iconClass, "linkedin") then "LinkedIn"
    else ""
  }

  /** The label is that of the first keyword, in table order, that occurs in
      the class name, and empty exactly when none occurs. */
  lemma LabelIsFirstMatch(iconClass: string)
    ensures Label(iconClass) == "" <==>
      forall k :: 0 <= k < |Keywords| ==> !Includes(iconClass, Keywords[k].0)
    ensures forall k :: 0 <= k < |Keywords| ==>
      (Label(iconClass) == Keywords[k].1 <==>
        Includes(iconClass, Keywords[k].0) &&
        forall j :: 0 <= j < k ==> !Includes(iconClass, Keywords[j].0))
  {
    assert Keywords[0] == ("whatsapp", "WhatsApp");
    assert Keywords[1] == ("phone", "Call");
    assert Keywords[2] == ("envelope", "Email");
    assert Keywords[3] == ("github", "GitHub");
    assert Keywords[4] == ("linkedin", "LinkedIn");
  }

  /** A keyword holding a character the class name lacks does not occur in it. */
  lemma MissingCharExcludes(s: string, sub: string, c: char)
    requires c in sub && c !in s
    ensures !Includes(s, sub)
  {
  }

  /** The phone icon's class gets "Call": "whatsapp", tried first, is absent. */
  lemma LabelOfPhoneIcon()
    ensures Label("fas fa-phone") == "Call"
  {
    assert OccursAt("fas fa-phone", "phone", 7);
    MissingCharExcludes("fas fa-phone", "whatsapp", 'w');
  }

  /** A class name holding two keywords gets the earlier keyword's label. */
  lemma LabelPriority()
    ensures Label("phone whatsapp") == "WhatsApp"
  {
    assert OccursAt("phone whatsapp", "whatsapp", 6);
  }

  /** An element of class `social-icon` or `social-link`: the class name of
      its `<i>` child and the text of its `.tooltip` child, if it has one. */
  datatype SocialIcon = SocialIcon(iconClass: string, tooltip: Option<string>)

  /** The icon after mouseenter: a tooltip is created, with the chosen label,
      only if there is none; an existing one is reused unchanged. */
  function Hovered(icon: SocialIcon): (r: SocialIcon)
    ensures r.iconClass == icon.iconClass && r.tooltip.Some?
    ensures icon.tooltip.Some? ==> r == icon
    ensures icon.tooltip.None? ==> r.tooltip.value == Label(icon.iconClass)
  {
    if icon.tooltip.None? then icon.(tooltip := Some(Label(icon.iconClass))) else icon
  }

  /** Hovering again creates nothing new. */
  lemma HoverOnce(icon: SocialIcon)
    ensures Hovered(Hovered(icon)) == Hovered(icon)
  {
  }
}
