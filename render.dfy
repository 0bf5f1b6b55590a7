/**
 * `render_esquema.py`: pick the value of the first sensor whose label
 * mentions the tank ("depósito"), falling back to `N/A`, and substitute it
 * for every `{{S9}}` in the diagram template. Reading `latest.json` and the
 * template, and writing the result, are not modelled: the sensors and the
 * template text are inputs.
 */
module Render {
  import opened Wrappers
  import opened Text
  import opened Extraction

  const Token: string := "{{S9}}"
  const Deposito: string := "dep\U{F3}sito"
  const Missing: string := "N/A"

  /** `"depósito" in s["label"].lower()`. */
  predicate MentionsTank(s: Reading) {
    Contains(Lower(s.labelText), Deposito)
  }

  /** `f'{s["value"]} {s["units"]}'`. */
  function Shown(s: Reading): string {
    s.value + " " + s.units
  }

  /** The index of the first sensor, in list order, whose label mentions the tank. */
  function FirstTankSensor(sensors: seq<Reading>): (r: Option<nat>)
    ensures r.None? ==> forall i :: 0 <= i < |sensors| ==> !MentionsTank(sensors[i])
    ensures r.Some? ==> r.value < |sensors| && MentionsTank(sensors[r.value])
                        && forall j :: 0 <= j < r.value ==> !MentionsTank(sensors[j])
  {
    if sensors == [] then None
    else if MentionsTank(sensors[0]) then Some(0)
    else
      match FirstTankSensor(sensors[1..])
      case None => None
      case Some(i) => Some(i + 1)
  }

  /** The value substituted for the token. */
  function TankValue(sensors: seq<Reading>): string {
    match FirstTankSensor(sensors)
    case None => Missing
    case Some(i) => Shown(sensors[i])
  }

  /** The lookup loop: `s9_value` starts as `N/A` and the first match sets it and stops the scan. */
  method FindTankValue(sensors: seq<Reading>) returns (v: string)
    ensures v == TankValue(sensors)
  {
    v := Missing;
    for k := 0 to |sensors|
      invariant forall j :: 0 <= j < k ==> !MentionsTank(sensors[j])
      invariant v == Missing
    {
      if MentionsTank(sensors[k]) {
        v := Shown(sensors[k]);
        assert FirstTankSensor(sensors) == Some(k);
        return;
      }
    }
  }

  /** Sensors after the first match make no difference. */
  lemma LaterMatchesIgnored(a: seq<Reading>, b: seq<Reading>)
    requires FirstTankSensor(a).Some?
    ensures TankValue(a + b) == TankValue(a)
  {
    var i := FirstTankSensor(a).value;
    var j := FirstTankSensor(a + b);
    assert (a + b)[i] == a[i];
    assert forall k :: 0 <= k < i ==> (a + b)[k] == a[k];
    assert j.Some? && !(j.value < i) && !(i < j.value);
  }

  /** `N/A` is substituted exactly when no label mentions the tank: a shown value
      always contains a space, which `N/A` does not. */
  lemma MissingIffNoMatch(sensors: seq<Reading>)
    ensures TankValue(sensors) == Missing <==> forall i :: 0 <= i < |sensors| ==> !MentionsTank(sensors[i])
  {
    match FirstTankSensor(sensors)
    case None =>
    case Some(i) =>
      var v := Shown(sensors[i]);
      assert v[|sensors[i].value|] == ' ';
      assert ' ' !in Missing;
      assert v != Missing;
  }

  /** Python's `s.replace(pat, rep)` for a non-empty pattern: scan left to
      right, replacing each occurrence and resuming after it. */
  function ReplaceAll(s: string, pat: string, rep: string): string
    requires |pat| > 0
    decreases |s|
  {
    if |s| < |pat| then s
    else if s[..|pat|] == pat then rep + ReplaceAll(s[|pat|..], pat, rep)
    else [s[0]] + ReplaceAll(s[1..], pat, rep)
  }

  /** A text without the pattern is returned unchanged. */
  lemma {:induction false} ReplaceAbsent(s: string, pat: string, rep: string)
    requires |pat| > 0 && !Contains(s, pat)
    ensures ReplaceAll(s, pat, rep) == s
    decreases |s|
  {
    if |s| >= |pat| {
      assert !OccursAt(s, pat, 0);
      assert !Contains(s[1..], pat) by {
        forall i: nat | i <= |s| - 1 ensures !OccursAt(s[1..], pat, i) {
          assert !OccursAt(s, pat, i + 1);
          if i + |pat| <= |s| - 1 {
            assert s[1..][i..i + |pat|] == s[i + 1..i + 1 + |pat|];
          }
        }
      }
      ReplaceAbsent(s[1..], pat, rep);
    }
  }

  /** Replacing the pattern by itself changes nothing. */
  lemma {:induction false} ReplaceBySelf(s: string, pat: string)
    requires |pat| > 0
    ensures ReplaceAll(s, pat, pat) == s
    decreases |s|
  {
    if |s| >= |pat| {
      if s[..|pat|] == pat {
        ReplaceBySelf(s[|pat|..], pat);
        assert s == s[..|pat|] + s[|pat|..];
      } else {
        ReplaceBySelf(s[1..], pat);
        assert s == [s[0]] + s[1..];
      }
    }
  }

  /** Left to right and non-overlapping: the text up to the first occurrence
      is kept, the occurrence replaced, and the scan resumes after it. */
  lemma {:induction false} ReplaceFirst(a: string, pat: string, b: string, rep: string)
    requires |pat| > 0
    requires forall i: nat :: i < |a| ==> !OccursAt(a + pat + b, pat, i)
    ensures ReplaceAll(a + pat + b, pat, rep) == a + rep + ReplaceAll(b, pat, rep)
    decreases |a|
  {
    var s := a + pat + b;
    if a == [] {
      assert s == pat + b;
      assert s[..|pat|] == pat && s[|pat|..] == b;
    } else {
      assert !OccursAt(s, pat, 0);
      assert s[1..] == a[1..] + pat + b;
      forall i: nat | i < |a| - 1 ensures !OccursAt(a[1..] + pat + b, pat, i) {
        assert !OccursAt(s, pat, i + 1);
        assert (a[1..] + pat + b)[i..i + |pat|] == s[i + 1..i + 1 + |pat|];
      }
      ReplaceFirst(a[1..], pat, b, rep);
      assert a + rep + ReplaceAll(b, pat, rep) == [a[0]] + (a[1..] + rep + ReplaceAll(b, pat, rep));
    }
  }

  /** No occurrence starts inside `a` and runs on into `b`. */
  predicate NoStraddle(a: string, b: string, pat: string) {
    forall i: nat :: |a| < i + |pat| && i < |a| ==> !OccursAt(a + b, pat, i)
  }

  /** Dropping a prefix of `a` keeps the boundary free of straddling occurrences. */
  lemma NoStraddleDrop(a: string, b: string, pat: string, k: nat)
    requires k <= |a| && NoStraddle(a, b, pat)
    ensures NoStraddle(a[k..], b, pat)
  {
    var s, t := a + b, a[k..] + b;
    assert t == s[k..];
    forall i: nat | |a[k..]| < i + |pat| && i < |a[k..]| ensures !OccursAt(t, pat, i) {
      assert !OccursAt(s, pat, i + k);
      if i + |pat| <= |t| {
        assert t[i..i + |pat|] == s[i + k..i + k + |pat|];
      }
    }
  }

  /** Replacing distributes over a concatenation no occurrence straddles. */
  lemma {:induction false} ReplaceConcat(a: string, b: string, pat: string, rep: string)
    requires |pat| > 0 && NoStraddle(a, b, pat)
    ensures ReplaceAll(a + b, pat, rep) == ReplaceAll(a, pat, rep) + ReplaceAll(b, pat, rep)
    decreases |a|
  {
    var s := a + b;
    if a == [] {
      assert s == b;
    } else if |a| >= |pat| && a[..|pat|] == pat {
      assert s[..|pat|] == pat;
      assert s[|pat|..] == a[|pat|..] + b;
      NoStraddleDrop(a, b, pat, |pat|);
      ReplaceConcat(a[|pat|..], b, pat, rep);
    } else {
      assert !OccursAt(s, pat, 0);
      assert s[1..] == a[1..] + b;
      NoStraddleDrop(a, b, pat, 1);
      ReplaceConcat(a[1..], b, pat, rep);
      if |a| < |pat| {
        ReplaceShort(a[1..], pat, rep);
      }
    }
  }

  lemma ReplaceShort(s: string, pat: string, rep: string)
    requires |pat| > 0 && |s| < |pat|
    ensures ReplaceAll(s, pat, rep) == s
  {
  }

  /** The token of another identifier, `{{S1}}` say, holds no `{{S9}}`, so it
      is left as it is. */
  lemma OtherTokenUntouched(x: string, rep: string)
    requires IsIdentifier(x) && x != "S9"
    ensures ReplaceAll("{{" + x + "}}", Token, rep) == "{{" + x + "}}"
  {
    var t := "{{" + x + "}}";
    forall i: nat | i <= |t| ensures !OccursAt(t, Token, i) {
      if i + 6 <= |t| {
        var w := t[i..i + 6];
        if i == 0 {
          assert w[2] == x[0] && w[3] == x[1] && w[4] == t[4];
          if |x| == 2 {
            assert x == [x[0], x[1]];
            assert w[2] != 'S' || w[3] != '9';
          } else {
            assert t[4] == x[2] && IsDigit(x[1..][1]);
          }
        } else {
          assert w[1] == t[i + 1] == x[i - 1];
          assert i == 1 || IsDigit(x[1..][i - 2]);
        }
      }
    }
    ReplaceAbsent(t, Token, rep);
  }

  /** The whole script: look the value up, then replace the token everywhere. */
  method RenderDiagram(template: string, sensors: seq<Reading>) returns (svg: string, value: string)
    ensures value == TankValue(sensors)
    ensures svg == ReplaceAll(template, Token, value)
  {
    value := FindTankValue(sensors);
    svg := ReplaceAll(template, Token, value);
  }
}
