/**
 The markup around the lead in the notification that main (main.go) sends: the
 percentage change of the lead picks a Markdown modifier by its sign, and the
 same modifier is written before and after the lead text.

 The change itself is a floating-point quotient; here only its sign matters,
 given as a three-way Sign. The lead text (the lead with thousands separators
 and the percentage with two decimals) is a parameter.
 */
module Markup {

  /** The sign of the lead's percentage change: below, equal to, or above zero. */
  datatype Sign = Neg | Zero | Pos

  /** Markdown code span, used for a negative change. */
  const Backtick: string := "`"

  /** Markdown bold, used for a positive change. */
  const Star: string := "*"

  /**
   The modifier chosen by main: it starts empty, becomes a backtick when the
   change is below zero and a star when it is above zero.
   */
  function Modifier(delta: Sign): (m: string)
    ensures m == Backtick <==> delta == Neg
    ensures m == Star <==> delta == Pos
    ensures m == [] <==> delta == Zero
    ensures |m| <= 1
  {
    var none: string := [];
    var afterNegative := if delta.Neg? then Backtick else none;
    if delta.Pos? then Star else afterNegative
  }

  /** The lead text with the modifier written on both sides of it. */
  function WrapLead(delta: Sign, text: string): (r: string)
    ensures var m := Modifier(delta);
            && |r| == |text| + 2 * |m|
            && r[..|m|] == m
            && r[|m|..|r| - |m|] == text
            && r[|r| - |m|..] == m
  {
    var m := Modifier(delta);
    var r := m + text + m;
    assert r[..|m|] == m && r[|m|..|r| - |m|] == text && r[|r| - |m|..] == m;
    r
  }

  /** The lead text main formats starts with a digit or a minus sign, never with a modifier. */
  predicate PlainLeadText(text: string)
  {
    text == [] || (text[0] != Backtick[0] && text[0] != Star[0])
  }

  /**
   A reader of the message can tell the sign and the lead text apart again: two
   wrapped leads are equal only when their signs and their texts are.
   */
  lemma WrapLeadInjective(d1: Sign, t1: string, d2: Sign, t2: string)
    requires PlainLeadText(t1) && PlainLeadText(t2)
    requires WrapLead(d1, t1) == WrapLead(d2, t2)
    ensures d1 == d2 && t1 == t2
  {
  }
}
