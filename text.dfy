/** The usual optional-value wrapper. */
module Wrappers {
  datatype Option<+T> = None | Some(value: T)
}

/**
 * Character- and string-level helpers shared by the scraper and the renderer:
 * Python's notion of whitespace, a lower-casing function, substring tests and
 * decimal digits.
 */
module Text {

  /** The characters Python's `str.isspace()` accepts; `\s`, `strip()` and
      `split()` on `str` use the same set. */
  predicate IsSpace(c: char) {
    ('\t' <= c <= '\r') || ('\U{1C}' <= c <= '\U{1F}') || c == ' ' || c == '\U{85}' || c == '\U{A0}'
    || c == '\U{1680}' || ('\U{2000}' <= c <= '\U{200A}') || c == '\U{2028}' || c == '\U{2029}'
    || c == '\U{202F}' || c == '\U{205F}' || c == '\U{3000}'
  }

  const Nbsp: char := '\U{A0}'

  /** Lower-cases the ASCII letters and the upper-case letters of Latin-1
      (`À`..`Þ` except `×`), which `str.lower()` maps 0x20 code points down. */
  function LowerChar(c: char): (r: char)
    ensures ('A' <= c <= 'Z') ==> 'a' <= r <= 'z'
    ensures !('A' <= c <= 'Z') && !('\U{C0}' <= c <= '\U{DE}') ==> r == c
  {
    if 'A' <= c <= 'Z' || ('\U{C0}' <= c <= '\U{DE}' && c != '\U{D7}') then (c as int + 32) as char else c
  }

  function Lower(s: string): (r: string)
    ensures |r| == |s|
    ensures forall i :: 0 <= i < |s| ==> r[i] == LowerChar(s[i])
  {
    seq(|s|, i requires 0 <= i < |s| => LowerChar(s[i]))
  }

  /** `pat` occurs in `s` starting at index `i`. */
  predicate OccursAt(s: string, pat: string, i: nat) {
    i + |pat| <= |s| && s[i..i + |pat|] == pat
  }

  /** Python's `pat in s`. */
  predicate Contains(s: string, pat: string) {
    exists i: nat :: i <= |s| && OccursAt(s, pat, i)
  }

  /** Python's `s.startswith(pre)`. */
  predicate StartsWith(s: string, pre: string) {
    OccursAt(s, pre, 0)
  }

  predicate IsDigit(c: char) {
    '0' <= c <= '9'
  }

  predicate AllDigits(s: string) {
    forall i :: 0 <= i < |s| ==> IsDigit(s[i])
  }

  /** `int(s)` for a non-empty string of ASCII decimal digits. */
  function DecimalValue(s: string): nat
    requires AllDigits(s)
  {
    if s == [] then 0
    else 10 * DecimalValue(s[..|s| - 1]) + (s[|s| - 1] as int - '0' as int)
  }

  /** The characters of `s` that are not whitespace, in order. */
  function Visible(s: string): string {
    if s == [] then []
    else if IsSpace(s[0]) then Visible(s[1..])
    else [s[0]] + Visible(s[1..])
  }

  lemma {:induction false} VisibleConcat(a: string, b: string)
    ensures Visible(a + b) == Visible(a) + Visible(b)
  {
    if a == [] {
      assert a + b == b;
    } else {
      assert (a + b)[1..] == a[1..] + b;
      VisibleConcat(a[1..], b);
    }
  }

  lemma {:induction false} VisibleReplaceNbsp(s: string)
    ensures Visible(ReplaceNbsp(s)) == Visible(s)
  {
    if s != [] {
      assert ReplaceNbsp(s)[1..] == ReplaceNbsp(s[1..]);
      VisibleReplaceNbsp(s[1..]);
    }
  }

  /** Python's `s.replace("\xa0", " ")`. */
  function ReplaceNbsp(s: string): (r: string)
    ensures |r| == |s|
    ensures forall i :: 0 <= i < |s| ==> r[i] != Nbsp && (s[i] == Nbsp ==> r[i] == ' ') && (s[i] != Nbsp ==> r[i] == s[i])
  {
    seq(|s|, i requires 0 <= i < |s| => if s[i] == Nbsp then ' ' else s[i])
  }

  /** Leading whitespace removed (the left half of `strip()`). */
  function TrimLeft(s: string): (r: string)
    ensures |r| <= |s|
    ensures r == [] || !IsSpace(r[0])
    ensures Visible(r) == Visible(s)
    ensures s != [] && !IsSpace(s[|s| - 1]) ==> r != [] && r[|r| - 1] == s[|s| - 1]
    ensures r == s[|s| - |r|..]
    ensures forall i :: 0 <= i < |s| - |r| ==> IsSpace(s[i])
  {
    if s == [] || !IsSpace(s[0]) then s else TrimLeft(s[1..])
  }

  /** Trailing whitespace removed (the right half of `strip()`). */
  function TrimRight(s: string): (r: string)
    ensures |r| <= |s|
    ensures r == [] || !IsSpace(r[|r| - 1])
    ensures Visible(r) == Visible(s)
    ensures s != [] && !IsSpace(s[0]) ==> r != [] && r[0] == s[0]
    ensures r == s[..|r|]
    ensures forall i :: |r| <= i < |s| ==> IsSpace(s[i])
  {
    if s == [] || !IsSpace(s[|s| - 1]) then s
    else
      var t := s[..|s| - 1];
      VisibleConcat(t, [s[|s| - 1]]);
      assert t + [s[|s| - 1]] == s;
      TrimRight(t)
  }

  /** Python's `s.strip()`. */
  function Strip(s: string): (r: string)
    ensures r == [] || (!IsSpace(r[0]) && !IsSpace(r[|r| - 1]))
    ensures Visible(r) == Visible(s)
  {
    TrimRight(TrimLeft(s))
  }

  /** The stripped text is a slice of `s` with only whitespace before and after it. */
  lemma StripIsSlice(s: string)
    ensures var r := Strip(s);
            exists k: nat :: k <= |s| && |r| <= |s[k..]| && r == s[k..][..|r|]
              && (forall i :: 0 <= i < k ==> IsSpace(s[i])) && (forall i :: k + |r| <= i < |s| ==> IsSpace(s[i]))
  {
    var t := TrimLeft(s);
    var k := |s| - |t|;
    var r := TrimRight(t);
    assert t == s[k..] && r == s[k..][..|r|];
    assert forall i :: k + |r| <= i < |s| ==> s[i] == t[i - k];
  }

  /** Whitespace at index `i` and again at `i + 1`. */
  predicate SpaceRun(s: string, i: nat) {
    i + 1 < |s| && IsSpace(s[i]) && IsSpace(s[i + 1])
  }

  /** No whitespace other than ' ', and never two whitespace characters in a row. */
  predicate SingleSpaced(s: string) {
    (forall i :: 0 <= i < |s| && IsSpace(s[i]) ==> s[i] == ' ') && (forall i: nat :: i < |s| ==> !SpaceRun(s, i))
  }

  /** Python's `re.sub(r"\s+", " ", s)`: every maximal run of whitespace becomes one space. */
  function Collapse(s: string): string
    decreases |s|
  {
    if s == [] then []
    else if IsSpace(s[0]) then [' '] + Collapse(TrimLeft(s[1..]))
    else [s[0]] + Collapse(s[1..])
  }

  /** What the collapse promises of its result `r` for the input `s`. */
  predicate CollapsedFrom(s: string, r: string) {
    && SingleSpaced(r)
    && Visible(r) == Visible(s)
    && (s == [] <==> r == [])
    && (s != [] ==> (IsSpace(s[0]) <==> IsSpace(r[0])) && (IsSpace(s[|s| - 1]) <==> IsSpace(r[|r| - 1])))
  }

  /** The collapse leaves no whitespace but single spaces, keeps the visible
      characters in order, and starts and ends with whitespace exactly when
      the input does. */
  lemma {:induction false} CollapseSpec(s: string)
    ensures CollapsedFrom(s, Collapse(s))
    decreases |s|
  {
    if s != [] {
      if IsSpace(s[0]) {
        var rest := TrimLeft(s[1..]);
        CollapseSpec(rest);
        CollapseSpaceStep(s, rest, Collapse(rest), Collapse(s));
      } else {
        CollapseSpec(s[1..]);
        CollapseVisibleStep(s, Collapse(s[1..]), Collapse(s));
      }
    }
  }

  /** The collapse of what follows a leading whitespace run, behind one space,
      meets the contract of `Collapse`. */
  lemma CollapseSpaceStep(s: string, rest: string, c: string, r: string)
    requires s != [] && IsSpace(s[0]) && rest == TrimLeft(s[1..])
    requires CollapsedFrom(rest, c) && r == [' '] + c
    ensures CollapsedFrom(s, r)
  {
    SingleSpacedCons(' ', c);
    assert r[1..] == c;
    assert Visible(r) == Visible(c);
    assert Visible(s) == Visible(s[1..]);
    if rest != [] {
      assert rest == s[1..][|s| - 1 - |rest|..];
      assert rest[|rest| - 1] == s[|s| - 1];
      assert r[|r| - 1] == c[|c| - 1];
    } else if |s| > 1 {
      assert IsSpace(s[1..][|s| - 2]);
    }
  }

  /** A visible first character, in front of the collapse of the rest, meets
      the contract of `Collapse`. */
  lemma CollapseVisibleStep(s: string, c: string, r: string)
    requires s != [] && !IsSpace(s[0])
    requires CollapsedFrom(s[1..], c) && r == [s[0]] + c
    ensures CollapsedFrom(s, r)
  {
    SingleSpacedCons(s[0], c);
    assert r[1..] == c;
    if c != [] {
      assert r[|r| - 1] == c[|c| - 1];
    }
  }

  lemma SingleSpacedCons(ch: char, c: string)
    requires SingleSpaced(c)
    requires IsSpace(ch) ==> ch == ' ' && (c == [] || !IsSpace(c[0]))
    ensures SingleSpaced([ch] + c)
  {
    var r := [ch] + c;
    forall i: nat | i < |r| ensures !SpaceRun(r, i) {
      if i > 0 {
        assert !SpaceRun(c, i - 1);
        assert r[i] == c[i - 1];
        if i + 1 < |r| {
          assert r[i + 1] == c[i];
        }
      }
    }
  }

  /** A string in the form the cleaner produces: trimmed and single-spaced. */
  predicate Normalized(s: string) {
    SingleSpaced(s) && (s == [] || (!IsSpace(s[0]) && !IsSpace(s[|s| - 1])))
  }

  /** The whitespace clean-up of `safe_text`: NBSP to space, strip, collapse runs. */
  function Clean(s: string): (r: string)
    ensures Normalized(r)
    ensures Visible(r) == Visible(s)
  {
    VisibleReplaceNbsp(s);
    CollapseSpec(Strip(ReplaceNbsp(s)));
    Collapse(Strip(ReplaceNbsp(s)))
  }

  lemma SingleSpacedTail(s: string)
    requires s != [] && SingleSpaced(s)
    ensures SingleSpaced(s[1..])
  {
    var t := s[1..];
    forall i: nat | i < |t| ensures !SpaceRun(t, i) {
      assert !SpaceRun(s, i + 1);
      if i + 1 < |t| {
        assert t[i] == s[i + 1] && t[i + 1] == s[i + 2];
      }
    }
  }

  lemma {:induction false} CollapseNormalized(s: string)
    requires SingleSpaced(s)
    ensures Collapse(s) == s
    decreases |s|
  {
    if s != [] {
      SingleSpacedTail(s);
      SingleSpacedHead(s);
      var t := s[1..];
      CollapseNormalized(t);
      if IsSpace(s[0]) {
        CollapseSpaceHead(s);
      } else {
        CollapseVisibleHead(s);
      }
      assert s == [s[0]] + t;
    }
  }

  lemma SingleSpacedHead(s: string)
    requires s != [] && SingleSpaced(s)
    ensures IsSpace(s[0]) ==> s[0] == ' ' && (|s| == 1 || !IsSpace(s[1]))
  {
    assert !SpaceRun(s, 0);
  }

  /** A lone leading space is kept and the collapse goes on after it. */
  lemma CollapseSpaceHead(s: string)
    requires s != [] && IsSpace(s[0]) && (|s| == 1 || !IsSpace(s[1]))
    ensures Collapse(s) == [' '] + Collapse(s[1..])
  {
    assert TrimLeft(s[1..]) == s[1..];
  }

  lemma CollapseVisibleHead(s: string)
    requires s != [] && !IsSpace(s[0])
    ensures Collapse(s) == [s[0]] + Collapse(s[1..])
  {
  }

  lemma {:induction false} StripNormalized(s: string)
    requires s == [] || (!IsSpace(s[0]) && !IsSpace(s[|s| - 1]))
    ensures Strip(s) == s
  {
  }

  lemma {:induction false} ReplaceNbspNoop(s: string)
    requires forall i :: 0 <= i < |s| ==> s[i] != Nbsp
    ensures ReplaceNbsp(s) == s
  {
  }

  /** Cleaning an already clean string changes nothing, so `Clean` is idempotent. */
  lemma {:induction false} CleanIdempotent(s: string)
    ensures Clean(Clean(s)) == Clean(s)
  {
    var c := Clean(s);
    forall i | 0 <= i < |c| ensures c[i] != Nbsp {
      if c[i] == Nbsp { assert IsSpace(c[i]); }
    }
    ReplaceNbspNoop(c);
    StripNormalized(c);
    CollapseNormalized(c);
  }

  /** A cleaned string is empty exactly when the raw text has no visible character. */
  lemma {:induction false} CleanEmptyIffBlank(s: string)
    ensures Clean(s) == [] <==> Visible(s) == []
  {
    var c := Clean(s);
    if c != [] {
      assert !IsSpace(c[0]);
      assert c == [c[0]] + c[1..];
      VisibleConcat([c[0]], c[1..]);
    }
  }

  // ---------------------------------------------------------------------------
  // Words: the reference for the whitespace clean-up
  // ---------------------------------------------------------------------------

  /** Python's `s.split()`: the maximal runs of non-whitespace characters, in order. */
  function Words(s: string): (ws: seq<string>)
    ensures forall k :: 0 <= k < |ws| ==> ws[k] != []
    ensures forall k, j :: 0 <= k < |ws| && 0 <= j < |ws[k]| ==> !IsSpace(ws[k][j])
    ensures s != [] && !IsSpace(s[0]) ==> ws != []
    decreases |s|
  {
    if s == [] then []
    else
      var rest := Words(s[1..]);
      if IsSpace(s[0]) then rest
      else if |s| > 1 && !IsSpace(s[1]) then [[s[0]] + rest[0]] + rest[1..]
      else [[s[0]]] + rest
  }

  /** Python's `" ".join(ws)`. */
  function JoinWords(ws: seq<string>): string {
    if ws == [] then []
    else if |ws| == 1 then ws[0]
    else ws[0] + " " + JoinWords(ws[1..])
  }

  /** Two strings with whitespace at the same places and the same characters
      elsewhere have the same words. */
  lemma {:induction false} WordsSameShape(s: string, t: string)
    requires |s| == |t|
    requires forall i :: 0 <= i < |s| ==> (IsSpace(s[i]) <==> IsSpace(t[i]))
    requires forall i :: 0 <= i < |s| && !IsSpace(s[i]) ==> t[i] == s[i]
    ensures Words(s) == Words(t)
    decreases |s|
  {
    if s != [] {
      WordsSameShape(s[1..], t[1..]);
    }
  }

  lemma {:induction false} WordsTrimLeft(s: string)
    ensures Words(TrimLeft(s)) == Words(s)
    decreases |s|
  {
    if s != [] && IsSpace(s[0]) {
      WordsTrimLeft(s[1..]);
    }
  }

  /** Trailing whitespace adds no word. */
  lemma {:induction false} WordsSnocSpace(p: string, c: char)
    requires IsSpace(c)
    ensures Words(p + [c]) == Words(p)
    decreases |p|
  {
    var q := p + [c];
    if p == [] {
      assert q[1..] == [];
    } else {
      assert q[1..] == p[1..] + [c];
      WordsSnocSpace(p[1..], c);
      if |p| == 1 {
        assert q[1] == c;
      } else {
        assert q[1] == p[1];
      }
    }
  }

  lemma {:induction false} WordsTrimRight(s: string)
    ensures Words(TrimRight(s)) == Words(s)
    decreases |s|
  {
    if s != [] && IsSpace(s[|s| - 1]) {
      var t := s[..|s| - 1];
      assert t + [s[|s| - 1]] == s;
      WordsSnocSpace(t, s[|s| - 1]);
      WordsTrimRight(t);
    }
  }

  /** Stripping keeps the words. */
  lemma StripKeepsWords(s: string)
    ensures Words(Strip(s)) == Words(s)
  {
    WordsTrimLeft(s);
    WordsTrimRight(TrimLeft(s));
  }

  /** Replacing every whitespace run by one space keeps the words. */
  lemma {:induction false} CollapseKeepsWords(s: string)
    ensures Words(Collapse(s)) == Words(s)
    decreases |s|
  {
    if s != [] {
      var c := Collapse(s);
      if IsSpace(s[0]) {
        var rest := TrimLeft(s[1..]);
        assert c[1..] == Collapse(rest);
        CollapseKeepsWords(rest);
        WordsTrimLeft(s[1..]);
      } else {
        assert c[1..] == Collapse(s[1..]);
        CollapseKeepsWords(s[1..]);
      }
    }
  }

  lemma JoinConsChar(ch: char, w: string, ws: seq<string>)
    ensures JoinWords([[ch] + w] + ws) == [ch] + JoinWords([w] + ws)
  {
    var a, b := [[ch] + w] + ws, [w] + ws;
    assert a[1..] == ws && b[1..] == ws;
  }

  /** A normalised string is its words joined by single spaces. */
  lemma {:induction false} JoinWordsNormalized(s: string)
    requires Normalized(s)
    ensures JoinWords(Words(s)) == s
    decreases |s|
  {
    if |s| == 1 {
      assert s == [s[0]];
      assert Words(s[1..]) == [];
    } else if |s| > 1 {
      SingleSpacedTail(s);
      var rest := Words(s[1..]);
      if !IsSpace(s[1]) {
        JoinWordsNormalized(s[1..]);
        JoinConsChar(s[0], rest[0], rest[1..]);
        assert [rest[0]] + rest[1..] == rest;
        assert s == [s[0]] + s[1..];
      } else {
        assert !SpaceRun(s, 1);
        assert s[1] == ' ' && |s| > 2 && !IsSpace(s[2]);
        var t := s[2..];
        assert s[1..][1..] == t;
        SingleSpacedTail(s[1..]);
        JoinWordsNormalized(t);
        assert Words(s) == [[s[0]]] + Words(t);
        assert s == [s[0]] + " " + t;
      }
    }
  }

  /** The clean-up is `" ".join(s.split())`: the words of the text, in order,
      separated by single spaces. */
  lemma CleanIsJoinedWords(s: string)
    ensures Clean(s) == JoinWords(Words(s))
  {
    var n := ReplaceNbsp(s);
    var c := Clean(s);
    assert c == Collapse(Strip(n));
    WordsSameShape(s, n);
    StripKeepsWords(n);
    CollapseKeepsWords(Strip(n));
    JoinWordsNormalized(c);
  }
}
