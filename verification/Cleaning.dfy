/**
  The client's normalisation of a date string before it is matched: the first
  run of commas becomes one comma, every run of whitespace becomes one space,
  and whitespace at both ends is removed. Each step is a recursive function
  on the string; the shape of the result is stated by the predicates below,
  and `Clean` is shown to produce that shape and to leave it unchanged.
*/
module Cleaning {
  import opened Text

  /** A leading run of commas removed. */
  function DropCommas(s: string): (r: string)
    ensures |r| <= |s| && (r == [] || r[0] != ',')
  {
    if s != [] && s[0] == ',' then DropCommas(s[1..]) else s
  }

  /** `replace(/,+/, ",")`: the first run of commas becomes one comma; later runs are kept. */
  function CollapseFirstCommas(s: string): string {
    if s == [] then []
    else if s[0] == ',' then "," + DropCommas(s[1..])
    else [s[0]] + CollapseFirstCommas(s[1..])
  }

  /** A leading run of whitespace removed. */
  function DropSpaces(s: string): (r: string)
    ensures |r| <= |s| && (r == [] || !IsSpace(r[0]))
  {
    if s != [] && IsSpace(s[0]) then DropSpaces(s[1..]) else s
  }

  /** `replace(/\s+/g, " ")`: every run of whitespace becomes a single space. */
  function CollapseSpaces(s: string): (r: string)
    ensures |r| <= |s| && (r == [] <==> s == [])
    ensures s != [] ==> r[0] == (if IsSpace(s[0]) then ' ' else s[0])
    decreases |s|
  {
    if s == [] then []
    else if IsSpace(s[0]) then " " + CollapseSpaces(DropSpaces(s[1..]))
    else [s[0]] + CollapseSpaces(s[1..])
  }

  /** The whole cleaning step of the client (App.js line 18). */
  function Clean(s: string): string {
    Trim(CollapseSpaces(CollapseFirstCommas(s)))
  }

  /** The first run of commas, if there is one, is a single comma. */
  predicate FirstCommaSingle(s: string) {
    s == [] || (if s[0] == ',' then |s| == 1 || s[1] != ',' else FirstCommaSingle(s[1..]))
  }

  /** Every whitespace character is a plain space, and no whitespace follows it. */
  predicate SpacesCollapsed(s: string) {
    s == []
    || ((IsSpace(s[0]) ==> s[0] == ' ' && (|s| == 1 || !IsSpace(s[1]))) && SpacesCollapsed(s[1..]))
  }

  predicate Trimmed(s: string) {
    s == [] || (!IsSpace(s[0]) && !IsSpace(s[|s| - 1]))
  }

  /** The shape a cleaned string has. */
  predicate IsClean(s: string) {
    FirstCommaSingle(s) && SpacesCollapsed(s) && Trimmed(s)
  }

  lemma {:induction false} CommasCollapsed(s: string)
    ensures FirstCommaSingle(CollapseFirstCommas(s))
  {
    if s != [] && s[0] != ',' {
      CommasCollapsed(s[1..]);
      assert CollapseFirstCommas(s)[1..] == CollapseFirstCommas(s[1..]);
    }
  }

  lemma {:induction false} CommasKept(s: string)
    requires FirstCommaSingle(s)
    ensures CollapseFirstCommas(s) == s
  {
    if s != [] {
      if s[0] == ',' {
        assert DropCommas(s[1..]) == s[1..];
      } else {
        CommasKept(s[1..]);
      }
      assert [s[0]] + s[1..] == s;
    }
  }

  lemma {:induction false} SpacesAreCollapsed(s: string)
    ensures SpacesCollapsed(CollapseSpaces(s))
    decreases |s|
  {
    if s != [] {
      var r := CollapseSpaces(s);
      if IsSpace(s[0]) {
        SpacesAreCollapsed(DropSpaces(s[1..]));
        assert r[1..] == CollapseSpaces(DropSpaces(s[1..]));
      } else {
        SpacesAreCollapsed(s[1..]);
        assert r[1..] == CollapseSpaces(s[1..]);
      }
    }
  }

  lemma {:induction false} SpacesKept(s: string)
    requires SpacesCollapsed(s)
    ensures CollapseSpaces(s) == s
  {
    if s != [] {
      if IsSpace(s[0]) {
        assert DropSpaces(s[1..]) == s[1..];
      }
      SpacesKept(s[1..]);
      assert [s[0]] + s[1..] == s;
    }
  }

  lemma {:induction false} DropSpacesKeepsComma(s: string)
    requires FirstCommaSingle(s)
    ensures FirstCommaSingle(DropSpaces(s))
  {
    if s != [] && IsSpace(s[0]) {
      DropSpacesKeepsComma(s[1..]);
    }
  }

  /** Collapsing whitespace keeps the first comma run single. */
  lemma {:induction false} SpacesKeepComma(s: string)
    requires FirstCommaSingle(s)
    ensures FirstCommaSingle(CollapseSpaces(s))
    decreases |s|
  {
    if s != [] {
      var r := CollapseSpaces(s);
      if IsSpace(s[0]) {
        DropSpacesKeepsComma(s[1..]);
        SpacesKeepComma(DropSpaces(s[1..]));
        assert r[1..] == CollapseSpaces(DropSpaces(s[1..]));
      } else if s[0] != ',' {
        SpacesKeepComma(s[1..]);
        assert r[1..] == CollapseSpaces(s[1..]);
      } else if |s| > 1 {
        assert r[1..] == CollapseSpaces(s[1..]);
        assert r[1] == CollapseSpaces(s[1..])[0];
      }
    }
  }

  lemma {:induction false} TrimStartKeeps(s: string)
    requires FirstCommaSingle(s) && SpacesCollapsed(s)
    ensures FirstCommaSingle(TrimStart(s)) && SpacesCollapsed(TrimStart(s))
  {
    if s != [] && IsSpace(s[0]) {
      TrimStartKeeps(s[1..]);
    }
  }

  /** Dropping a final whitespace character keeps the first comma run single. */
  lemma {:induction false} DropLastKeepsComma(s: string)
    requires s != [] && IsSpace(s[|s| - 1]) && FirstCommaSingle(s)
    ensures FirstCommaSingle(s[..|s| - 1])
  {
    var p := s[..|s| - 1];
    if |s| > 1 {
      assert p[0] == s[0];
      if s[0] != ',' {
        DropLastKeepsComma(s[1..]);
        assert p[1..] == s[1..][..|s| - 2];
      } else if |p| > 1 {
        assert p[1] == s[1];
      }
    }
  }

  /** Dropping a final whitespace character keeps the whitespace collapsed. */
  lemma {:induction false} DropLastKeepsSpaces(s: string)
    requires s != [] && IsSpace(s[|s| - 1]) && SpacesCollapsed(s)
    ensures SpacesCollapsed(s[..|s| - 1])
  {
    var p := s[..|s| - 1];
    if |s| > 1 {
      DropLastKeepsSpaces(s[1..]);
      assert p[1..] == s[1..][..|s| - 2];
      assert p[0] == s[0];
      if |p| > 1 {
        assert p[1] == s[1];
      }
    }
  }

  lemma {:induction false} TrimEndKeeps(s: string)
    requires FirstCommaSingle(s) && SpacesCollapsed(s)
    ensures FirstCommaSingle(TrimEnd(s)) && SpacesCollapsed(TrimEnd(s))
    decreases |s|
  {
    if s != [] && IsSpace(s[|s| - 1]) {
      DropLastKeepsComma(s);
      DropLastKeepsSpaces(s);
      TrimEndKeeps(s[..|s| - 1]);
    }
  }

  lemma TrimIsTrimmed(s: string)
    ensures Trimmed(Trim(s))
  {
    var t := TrimStart(s);
    var r := TrimEnd(t);
    if r != [] {
      assert r[0] == t[0];
    }
  }

  /** Cleaning produces the clean shape. */
  lemma CleanIsClean(s: string)
    ensures IsClean(Clean(s))
  {
    var a := CollapseFirstCommas(s);
    var b := CollapseSpaces(a);
    CommasCollapsed(s);
    SpacesKeepComma(a);
    SpacesAreCollapsed(a);
    TrimStartKeeps(b);
    TrimEndKeeps(TrimStart(b));
    TrimIsTrimmed(b);
  }

  /** A string already in the clean shape is left as it is. */
  lemma CleanKeepsClean(s: string)
    requires IsClean(s)
    ensures Clean(s) == s
  {
    CommasKept(s);
    SpacesKept(s);
    TrimUnchanged(s);
  }

  /** Cleaning twice is cleaning once. */
  lemma CleanIdempotent(s: string)
    ensures Clean(Clean(s)) == Clean(s)
  {
    CleanIsClean(s);
    CleanKeepsClean(Clean(s));
  }

  // ---------------------------------------------------------------------------
  // What cleaning keeps: it only removes or replaces whitespace and commas.

  /** The characters of `s` other than whitespace and commas, in order. */
  function Content(s: string): (r: string)
    ensures |r| <= |s|
  {
    if s == [] then []
    else if IsSpace(s[0]) || s[0] == ',' then Content(s[1..])
    else [s[0]] + Content(s[1..])
  }

  lemma {:induction false} ContentConcat(a: string, b: string)
    ensures Content(a + b) == Content(a) + Content(b)
  {
    if a == [] {
      assert a + b == b;
    } else {
      var ab := a + b;
      assert ab[0] == a[0] && ab[1..] == a[1..] + b;
      ContentConcat(a[1..], b);
      if IsSpace(a[0]) || a[0] == ',' {
        assert Content(ab) == Content(a[1..] + b);
      } else {
        assert Content(ab) == [a[0]] + Content(a[1..] + b);
      }
    }
  }

  lemma {:induction false} ContentOfSpaces(w: string)
    requires AllSpace(w)
    ensures Content(w) == []
  {
    if w != [] {
      assert AllSpace(w[1..]) by {
        forall i | 0 <= i < |w[1..]|
          ensures IsSpace(w[1..][i])
        {
          assert w[1..][i] == w[i + 1];
        }
      }
      ContentOfSpaces(w[1..]);
    }
  }

  lemma {:induction false} ContentDropCommas(s: string)
    ensures Content(DropCommas(s)) == Content(s)
  {
    if s != [] && s[0] == ',' {
      ContentDropCommas(s[1..]);
    }
  }

  lemma {:induction false} ContentDropSpaces(s: string)
    ensures Content(DropSpaces(s)) == Content(s)
  {
    if s != [] && IsSpace(s[0]) {
      ContentDropSpaces(s[1..]);
    }
  }

  lemma {:induction false} ContentCollapseCommas(s: string)
    ensures Content(CollapseFirstCommas(s)) == Content(s)
  {
    if s != [] {
      var r := CollapseFirstCommas(s);
      if s[0] == ',' {
        assert r[0] == ',' && r[1..] == DropCommas(s[1..]);
        ContentDropCommas(s[1..]);
      } else {
        assert r[0] == s[0] && r[1..] == CollapseFirstCommas(s[1..]);
        ContentCollapseCommas(s[1..]);
      }
    }
  }

  lemma {:induction false} ContentCollapseSpaces(s: string)
    ensures Content(CollapseSpaces(s)) == Content(s)
    decreases |s|
  {
    if s != [] {
      var r := CollapseSpaces(s);
      if IsSpace(s[0]) {
        assert IsSpace(r[0]) && r[1..] == CollapseSpaces(DropSpaces(s[1..]));
        ContentCollapseSpaces(DropSpaces(s[1..]));
        ContentDropSpaces(s[1..]);
      } else {
        assert r[0] == s[0] && r[1..] == CollapseSpaces(s[1..]);
        ContentCollapseSpaces(s[1..]);
      }
    }
  }

  /** Content of a whitespace run followed by `t`, or of `t` followed by a whitespace run, is that of `t`. */
  lemma ContentAroundSpaces(w: string, t: string)
    requires AllSpace(w)
    ensures Content(w + t) == Content(t) && Content(t + w) == Content(t)
  {
    ContentConcat(w, t);
    ContentConcat(t, w);
    ContentOfSpaces(w);
  }

  lemma ContentTrimStart(s: string)
    ensures Content(TrimStart(s)) == Content(s)
  {
    var t := TrimStart(s);
    var w := s[..|s| - |t|];
    TrimStartDrops(s);
    assert s == w + t;
    ContentAroundSpaces(w, t);
  }

  lemma ContentTrimEnd(s: string)
    ensures Content(TrimEnd(s)) == Content(s)
  {
    var r := TrimEnd(s);
    var w := s[|r|..];
    TrimEndDrops(s);
    assert s == r + w;
    ContentAroundSpaces(w, r);
  }

  /**
    Cleaning keeps every character that is neither whitespace nor a comma,
    in order: it changes the text only by collapsing comma and whitespace
    runs and trimming the ends.
  */
  lemma CleanKeepsContent(s: string)
    ensures Content(Clean(s)) == Content(s)
  {
    ContentCollapseCommas(s);
    ContentCollapseSpaces(CollapseFirstCommas(s));
    ContentTrimStart(CollapseSpaces(CollapseFirstCommas(s)));
    ContentTrimEnd(TrimStart(CollapseSpaces(CollapseFirstCommas(s))));
  }

  lemma {:induction false} SpacesCollapsedMeans(s: string)
    requires SpacesCollapsed(s)
    ensures forall i :: 0 <= i < |s| && IsSpace(s[i]) ==> s[i] == ' '
    ensures forall i :: 0 <= i < |s| - 1 && IsSpace(s[i]) ==> !IsSpace(s[i + 1])
  {
    if s != [] {
      SpacesCollapsedMeans(s[1..]);
      forall i | 1 <= i < |s|
        ensures s[i] == s[1..][i - 1]
      {
      }
    }
  }

  /** Read as positions: a cleaned string holds no whitespace but single plain spaces, none at either end. */
  lemma CleanShape(s: string)
    ensures var r := Clean(s);
      && (forall i :: 0 <= i < |r| && IsSpace(r[i]) ==> r[i] == ' ')
      && (forall i :: 0 <= i < |r| - 1 && IsSpace(r[i]) ==> !IsSpace(r[i + 1]))
      && (r == [] || (!IsSpace(r[0]) && !IsSpace(r[|r| - 1])))
  {
    CleanIsClean(s);
    SpacesCollapsedMeans(Clean(s));
  }

  /** Where the first comma run is: a comma-free prefix, then commas, then the rest. */
  lemma {:induction false} CollapseFirstCommasAt(a: string, commas: string, b: string)
    requires ',' !in a && commas != [] && (forall i :: 0 <= i < |commas| ==> commas[i] == ',')
    requires b == [] || b[0] != ','
    ensures CollapseFirstCommas(a + commas + b) == a + "," + b
  {
    if a == [] {
      var s := commas + b;
      assert a + commas + b == s;
      DropCommasRun(commas[1..], b);
      assert s[1..] == commas[1..] + b;
    } else {
      CollapseFirstCommasAt(a[1..], commas, b);
      assert (a + commas + b)[1..] == a[1..] + commas + b;
      assert [a[0]] + (a[1..] + "," + b) == a + "," + b;
    }
  }

  lemma {:induction false} DropCommasRun(commas: string, b: string)
    requires forall i :: 0 <= i < |commas| ==> commas[i] == ','
    requires b == [] || b[0] != ','
    ensures DropCommas(commas + b) == b
  {
    if commas != [] {
      DropCommasRun(commas[1..], b);
      assert (commas + b)[1..] == commas[1..] + b;
    }
  }

  /** Text without whitespace passes through the collapse unchanged. */
  lemma {:induction false} CollapseSpacesNoSpace(a: string, b: string)
    requires NoSpace(a)
    ensures CollapseSpaces(a + b) == a + CollapseSpaces(b)
  {
    if a != [] {
      var s := a + b;
      assert s[0] == a[0] && !IsSpace(a[0]);
      assert s[1..] == a[1..] + b;
      assert NoSpace(a[1..]) by {
        forall i | 0 <= i < |a| - 1
          ensures !IsSpace(a[1..][i])
        {
          assert a[1..][i] == a[i + 1];
        }
      }
      CollapseSpacesNoSpace(a[1..], b);
      assert CollapseSpaces(s) == [a[0]] + CollapseSpaces(s[1..]);
      assert [a[0]] + (a[1..] + CollapseSpaces(b)) == a + CollapseSpaces(b);
    } else {
      assert a + b == b && a + CollapseSpaces(b) == CollapseSpaces(b);
    }
  }

  /** A run of whitespace followed by something else becomes one space. */
  lemma CollapseSpacesRun(w: string, b: string)
    requires w != [] && (forall i :: 0 <= i < |w| ==> IsSpace(w[i]))
    requires b == [] || !IsSpace(b[0])
    ensures CollapseSpaces(w + b) == " " + CollapseSpaces(b)
  {
    var s := w + b;
    assert s[0] == w[0] && s[1..] == w[1..] + b;
    assert DropSpaces(s[1..]) == b by {
      forall i | 0 <= i < |w[1..]|
        ensures IsSpace(w[1..][i])
      {
        assert w[1..][i] == w[i + 1];
      }
      DropSpacesRun(w[1..], b);
    }
    assert CollapseSpaces(s) == " " + CollapseSpaces(DropSpaces(s[1..]));
  }

  lemma {:induction false} DropSpacesRun(w: string, b: string)
    requires forall i :: 0 <= i < |w| ==> IsSpace(w[i])
    requires b == [] || !IsSpace(b[0])
    ensures DropSpaces(w + b) == b
  {
    if w != [] {
      DropSpacesRun(w[1..], b);
      assert (w + b)[1..] == w[1..] + b;
    }
  }

  /** Whitespace between two pieces without whitespace collapses to one space. */
  lemma CollapseGap(a: string, w: string, b: string)
    requires NoSpace(a) && w != [] && AllSpace(w)
    requires b == [] || !IsSpace(b[0])
    ensures CollapseSpaces(a + (w + b)) == a + (" " + CollapseSpaces(b))
  {
    CollapseSpacesNoSpace(a, w + b);
    CollapseSpacesRun(w, b);
  }

  lemma CollapseSpacesPlain(s: string)
    requires NoSpace(s)
    ensures CollapseSpaces(s) == s
  {
    CollapseSpacesNoSpace(s, []);
    assert s + [] == s;
  }

  lemma {:induction false} CommaFree(s: string)
    requires ',' !in s
    ensures CollapseFirstCommas(s) == s
  {
    if s != [] {
      CommaFree(s[1..]);
      assert [s[0]] + s[1..] == s;
    }
  }

  /** A run of whitespace before a piece without whitespace narrows to one space, or stays empty. */
  lemma GapNarrowed(space: string, b: string)
    requires b != [] && NoSpace(b) && AllSpace(space)
    ensures CollapseSpaces(space + b) == (if space == [] then [] else " ") + b
  {
    CollapseSpacesPlain(b);
    if space != [] {
      CollapseSpacesRun(space, b);
    } else {
      assert space + b == b;
    }
  }

  lemma CommaGapCommas(a: string, space: string, b: string)
    requires ',' !in a && AllSpace(space) && b != [] && b[0] != ','
    ensures CollapseFirstCommas(a + ("," + (space + b))) == a + ("," + (space + b))
  {
    var tail := space + b;
    assert tail[0] != ',' by {
      if space != [] {
        assert tail[0] == space[0];
      }
    }
    assert a + ("," + tail) == a + "," + tail;
    CollapseFirstCommasAt(a, ",", tail);
  }

  lemma CommaGapSpaces(a: string, space: string, b: string)
    requires NoSpace(a) && AllSpace(space) && b != [] && NoSpace(b)
    ensures CollapseSpaces(a + ("," + (space + b))) == a + ("," + ((if space == [] then [] else " ") + b))
  {
    var tail := space + b;
    NoSpaceConcat(a, ",");
    assert a + ("," + tail) == (a + ",") + tail;
    CollapseSpacesNoSpace(a + ",", tail);
    GapNarrowed(space, b);
    assert (a + ",") + ((if space == [] then [] else " ") + b) == a + ("," + ((if space == [] then [] else " ") + b));
  }

  /** Trim keeps text whose two ends are not whitespace. */
  lemma TrimKeepsEnds(a: string, x: string)
    requires a != [] && x != [] && !IsSpace(a[0]) && !IsSpace(x[|x| - 1])
    ensures Trim(a + x) == a + x
  {
    var c := a + x;
    assert c[0] == a[0] && c[|c| - 1] == x[|x| - 1];
    TrimUnchanged(c);
  }

  /**
    Text made of a comma-free piece, a comma, a run of whitespace and a piece
    without whitespace cleans to the same text with the run narrowed to one
    space (or none, when there was none).
  */
  lemma CleanCommaGap(a: string, space: string, b: string)
    requires a != [] && NoSpace(a) && ',' !in a
    requires b != [] && NoSpace(b) && b[0] != ','
    requires AllSpace(space)
    ensures Clean(a + ("," + (space + b))) == a + ("," + ((if space == [] then [] else " ") + b))
  {
    var narrowed: string := if space == [] then [] else " ";
    var s := a + ("," + (space + b));
    var c := a + ("," + (narrowed + b));
    assert CollapseFirstCommas(s) == s by {
      CommaGapCommas(a, space, b);
    }
    assert CollapseSpaces(s) == c by {
      CommaGapSpaces(a, space, b);
    }
    CommaGapTrim(a, narrowed, b);
    CleanFromSteps(s, c);
  }

  lemma CommaGapTrim(a: string, narrowed: string, b: string)
    requires a != [] && NoSpace(a) && b != [] && NoSpace(b)
    ensures Trim(a + ("," + (narrowed + b))) == a + ("," + (narrowed + b))
  {
    var x := "," + (narrowed + b);
    assert x[|x| - 1] == b[|b| - 1];
    assert !IsSpace(b[|b| - 1]) && !IsSpace(a[0]);
    TrimKeepsEnds(a, x);
  }

  lemma CleanFromSteps(s: string, c: string)
    requires CollapseFirstCommas(s) == s && CollapseSpaces(s) == c && Trim(c) == c
    ensures Clean(s) == c
  {
  }
}
