/** The answer line of the quadratic-equation pages: the roots a solution
    binds, shown as a TeX set. */
module QuadraticEquations {
  import opened Strings

  const NoRealRoots: string := "x \\notin \\mathbb{R}"
  const Approx: string := "\\approx "
  const SingleRoot: string := "x = "
  const SetOpen: string := "x = \\{"
  const SetClose: string := "\\}"
  const RootSeparator: string := "; "

  /** A root as shown: a decimal is marked as approximate, any other
      value is shown as it is. */
  function ShownRoot(value: string): (r: string)
    ensures '.' in value <==> StartsWith(r, Approx) && r[|Approx|..] == value
    ensures '.' !in value ==> r == value
  {
    (if '.' in value then Approx else "") + value
  }

  /** The variables that hold roots: names starting with `x`, values other
      than `NaN`. */
  predicate IsRoot(name: string, value: string) {
    StartsWith(name, "x") && value != "NaN"
  }

  /** The shown roots of the variables named in `names`. */
  function RootsOver(variables: map<string, string>, names: set<string>): set<string> {
    set name | name in names && name in variables && IsRoot(name, variables[name]) :: ShownRoot(variables[name])
  }

  function Roots(variables: map<string, string>): set<string> {
    RootsOver(variables, variables.Keys)
  }

  /** The answer for a set of shown roots, chosen by its size. */
  function Answer(roots: set<string>): (s: string)
    ensures |roots| == 0 ==> s == NoRealRoots
    ensures |roots| == 1 ==> exists r :: roots == {r} && s == SingleRoot + r
    ensures |roots| >= 2 ==> StartsWith(s, SetOpen) && |s| >= |SetOpen| + |SetClose|
  {
    var sorted := SortedStrings(roots);
    if |roots| == 0 then NoRealRoots
    else if |roots| == 1 then
      assert roots == {sorted[0]} by {
        assert sorted[0] in roots;
        SingletonSet(roots, sorted[0]);
      }
      SingleRoot + sorted[0]
    else SetOpen + Join(sorted, RootSeparator) + SetClose
  }

  lemma SingletonSet(s: set<string>, x: string)
    requires |s| == 1 && x in s
    ensures s == {x}
  {
    assert |s - {x}| == 0;
    assert s == (s - {x}) + {x};
  }

  /** `answer_tex_formula_generator(variables)`: collect the roots, then
      write the answer for them. */
  method AnswerTexFormula(variables: map<string, string>) returns (s: string)
    ensures s == Answer(Roots(variables))
  {
    var roots := CollectRoots(variables);
    var sorted := SortedStrings(roots);
    if |roots| == 0 {
      s := NoRealRoots;
    } else if |roots| == 1 {
      s := SingleRoot + sorted[0];
    } else {
      s := SetOpen + Join(sorted, RootSeparator) + SetClose;
    }
  }

  /** The loop of `answer_tex_formula_generator` over the variables. */
  method CollectRoots(variables: map<string, string>) returns (roots: set<string>)
    ensures roots == Roots(variables)
  {
    roots := {};
    var remaining := variables.Keys;
    while remaining != {}
      invariant remaining <= variables.Keys
      invariant roots == RootsOver(variables, variables.Keys - remaining)
      decreases |remaining|
    {
      var name :| name in remaining;
      var value := variables[name];
      RootsOverStep(variables, variables.Keys - remaining, name);
      assert variables.Keys - (remaining - {name}) == (variables.Keys - remaining) + {name};
      if StartsWith(name, "x") && value != "NaN" {
        roots := roots + {ShownRoot(value)};
      }
      remaining := remaining - {name};
    }
  }

  /** Adding one name to those already looked at adds its root, if it
      has one. */
  lemma RootsOverStep(variables: map<string, string>, names: set<string>, name: string)
    requires name in variables
    ensures RootsOver(variables, names + {name}) ==
      RootsOver(variables, names) + (if IsRoot(name, variables[name]) then {ShownRoot(variables[name])} else {})
  {
  }

  /** Reading the set back: between the braces, splitting at `; ` gives
      exactly the roots in sorted order, provided no root holds `; `. */
  lemma AnswerListsSortedRoots(roots: set<string>)
    requires |roots| >= 2
    requires forall r :: r in roots ==> !Contains(r, RootSeparator)
    ensures var s := Answer(roots);
      Split(s[|SetOpen|..|s| - |SetClose|], RootSeparator) == SortedStrings(roots)
  {
    var sorted := SortedStrings(roots);
    var middle := Join(sorted, RootSeparator);
    var s := Answer(roots);
    assert s == SetOpen + middle + SetClose;
    assert s[|SetOpen|..|s| - |SetClose|] == middle;
    SplitJoin(sorted);
  }

  /** Joining pieces free of `; ` with `; ` and splitting again gives the
      pieces back. */
  lemma {:induction false} SplitJoin(parts: seq<string>)
    requires |parts| >= 1
    requires forall i :: 0 <= i < |parts| ==> !Contains(parts[i], RootSeparator)
    ensures Split(Join(parts, RootSeparator), RootSeparator) == parts
    decreases |parts|
  {
    if |parts| == 1 {
      assert Join(parts, RootSeparator) == parts[0];
    } else {
      var rest := parts[1..];
      assert Join(parts, RootSeparator) == parts[0] + RootSeparator + Join(rest, RootSeparator);
      NoSeparatorAtBoundary(parts[0]);
      SplitAtFirst(parts[0], RootSeparator, Join(rest, RootSeparator));
      SplitJoin(rest);
    }
  }

  /** `; ` cannot straddle the end of a piece that lacks it and a following
      `;`, because its second character is a space. */
  lemma NoSeparatorAtBoundary(pre: string)
    requires !Contains(pre, RootSeparator)
    ensures !Contains(pre + RootSeparator[..|RootSeparator| - 1], RootSeparator)
  {
    var t := pre + RootSeparator[..|RootSeparator| - 1];
    forall j | 0 <= j <= |t| - |RootSeparator|
      ensures !OccursAt(t, RootSeparator, j)
    {
      if j + 2 <= |pre| {
        assert pre[j..j + 2] == t[j..j + 2];
        assert !OccursAt(pre, RootSeparator, j);
      } else {
        assert j + 1 == |pre| && t[|pre|] == RootSeparator[0];
        assert t[j..j + 2][1] != RootSeparator[1];
      }
    }
  }

  /** Different values are shown differently, so only equal values
      collapse into one root. */
  lemma ShownRootInjective(v: string, w: string)
    requires ShownRoot(v) == ShownRoot(w)
    ensures v == w
  {
    if '.' in v && '.' in w {
      assert v == ShownRoot(v)[|Approx|..];
      assert w == ShownRoot(w)[|Approx|..];
    } else {
      assert ShownRoot(v) == v && ShownRoot(w) == w;
    }
  }

  /** A variable that is not a root does not change the answer. */
  lemma NonRootChangesNothing(variables: map<string, string>, name: string, value: string)
    requires name !in variables && !IsRoot(name, value)
    ensures Answer(Roots(variables[name := value])) == Answer(Roots(variables))
  {
    var extended := variables[name := value];
    assert Roots(extended) == Roots(variables) by {
      forall r | r in Roots(extended)
        ensures r in Roots(variables)
      {
        var n :| n in extended && IsRoot(n, extended[n]) && r == ShownRoot(extended[n]);
        assert n != name;
      }
      forall r | r in Roots(variables)
        ensures r in Roots(extended)
      {
        var n :| n in variables && IsRoot(n, variables[n]) && r == ShownRoot(variables[n]);
        assert n in extended && extended[n] == variables[n];
      }
    }
  }

  /** Two roots with the same value collapse into one: `x1 = x2 = 2` is
      answered `x = 2`, and no roots at all give `x \notin \mathbb{R}`. */
  lemma AnswerExamples()
    ensures Answer(Roots(map["x1" := "2", "x2" := "2", "a" := "1"])) == "x = 2"
    ensures Answer(Roots(map["x1" := "NaN", "a" := "1"])) == NoRealRoots
  {
    var vs := map["x1" := "2", "x2" := "2", "a" := "1"];
    assert '.' !in "2";
    assert "a"[..1] == "a";
    assert StartsWith("x1", "x") && StartsWith("x2", "x") && !StartsWith("a", "x");
    assert Roots(vs) == {"2"} by {
      assert ShownRoot(vs["x1"]) == "2";
      assert "2" in Roots(vs);
    }
    SingletonSet({"2"}, "2");
    var ws := map["x1" := "NaN", "a" := "1"];
    assert Roots(ws) == {} by {
      assert "a"[..1] == "a";
    }
  }
}
