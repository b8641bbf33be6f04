/** The coefficient controls of a generator page: the two text inputs of
    a variable's range and how their text is cleaned up, the pair of
    fraction checkboxes of a variable that exclude each other, and the
    slider for the number of equations with its -/+ buttons. `float()` is
    a parameter `parse` that yields `None` where it raises `ValueError`. */
module CoefficientsSetup {
  import opened Wrappers
  import opened Strings

  /** `string.digits + "."`. */
  predicate IsNumberChar(c: char) {
    '0' <= c <= '9' || c == '.'
  }

  /** `"".join(filter(lambda char: char in digits + ".", s))`. */
  function KeepNumberChars(s: string): (r: string)
    ensures |r| <= |s|
    ensures forall c :: c in r <==> c in s && IsNumberChar(c)
    ensures (forall c :: c in s ==> IsNumberChar(c)) ==> r == s
  {
    if |s| == 0 then ""
    else
      assert s == [s[0]] + s[1..];
      (if IsNumberChar(s[0]) then [s[0]] else "") + KeepNumberChars(s[1..])
  }

  /** The filter keeps a number character and drops any other one... */
  lemma KeepNumberCharsOne(c: char)
    ensures KeepNumberChars([c]) == if IsNumberChar(c) then [c] else ""
  {
  }

  /** ... and works character by character, keeping their order and
      multiplicity. */
  lemma {:induction false} KeepNumberCharsAppend(s: string, t: string)
    ensures KeepNumberChars(s + t) == KeepNumberChars(s) + KeepNumberChars(t)
  {
    if |s| == 0 {
      assert s + t == t;
    } else {
      assert (s + t)[1..] == s[1..] + t;
      KeepNumberCharsAppend(s[1..], t);
    }
  }

  /** `s.replace(c, "")` for a single character. */
  function RemoveChar(s: string, c: char): (r: string)
    ensures forall d :: d in r <==> d in s && d != c
  {
    if |s| == 0 then ""
    else
      assert s == [s[0]] + s[1..];
      (if s[0] == c then "" else [s[0]]) + RemoveChar(s[1..], c)
  }

  lemma {:induction false} RemoveCharAppend(s: string, t: string, c: char)
    ensures RemoveChar(s + t, c) == RemoveChar(s, c) + RemoveChar(t, c)
  {
    if |s| == 0 {
      assert s + t == t;
    } else {
      assert (s + t)[1..] == s[1..] + t;
      RemoveCharAppend(s[1..], t, c);
    }
  }

  lemma {:induction false} RemoveCharIdempotent(s: string, c: char)
    requires c !in s
    ensures RemoveChar(s, c) == s
  {
    if |s| > 0 {
      assert s == [s[0]] + s[1..];
      RemoveCharIdempotent(s[1..], c);
    }
  }

  /** The position of the first `c` in `s`. */
  function FirstIndex(s: string, c: char): (i: nat)
    requires c in s
    ensures i < |s| && s[i] == c && c !in s[..i]
  {
    if s[0] == c then 0
    else
      assert c in s[1..] by {
        var j :| 0 <= j < |s| && s[j] == c;
        assert s[1..][j - 1] == c;
      }
      var i := FirstIndex(s[1..], c);
      assert s[..i + 1] == [s[0]] + s[1..][..i];
      i + 1
  }

  /** `".".join([before, after.replace(".", "")])` with
      `before, after = s.split(".", 1)`. */
  function DropLaterDots(s: string): string
    requires '.' in s
  {
    var i := FirstIndex(s, '.');
    s[..i] + "." + RemoveChar(s[i + 1..], '.')
  }

  /** Deleting the later dots leaves one dot, in its first place, and
      keeps every other character in order. */
  lemma DropLaterDotsKeepsTheRest(s: string)
    requires '.' in s
    ensures var r, i := DropLaterDots(s), FirstIndex(s, '.');
      && Count(r, '.') == 1
      && i < |r| && r[..i] == s[..i] && r[i] == '.'
      && RemoveChar(r, '.') == RemoveChar(s, '.')
  {
    var i := FirstIndex(s, '.');
    var before, after := s[..i], s[i + 1..];
    var r := DropLaterDots(s);
    assert r == before + "." + RemoveChar(after, '.');
    assert s == before + "." + after;
    CountAppend(before + ".", RemoveChar(after, '.'), '.');
    CountAppend(before, ".", '.');
    CountZero(before, '.');
    CountZero(RemoveChar(after, '.'), '.');
    RemoveCharAppend(before + ".", after, '.');
    RemoveCharAppend(before + ".", RemoveChar(after, '.'), '.');
    RemoveCharIdempotent(RemoveChar(after, '.'), '.');
    assert r[..i] == before;
  }

  /** `s_value.strip().replace(",", ".")`. */
  function Normalize(raw: string): string {
    ReplaceChar(Strip(raw), ',', '.')
  }

  /** The texts read as `0.0` without parsing. */
  predicate IsBlank(s: string) {
    s == "" || s == "-" || s == "+"
  }

  predicate IsSign(c: char) {
    c == '+' || c == '-'
  }

  /** After a leading sign only digits and dots are kept; without a sign
      the text is left alone. */
  function FilterAfterSign(s: string): string
    requires |s| > 0
  {
    if IsSign(s[0]) then [s[0]] + KeepNumberChars(s[1..]) else s
  }

  /** With more than one dot, the later ones are deleted. */
  function AtMostOneDot(s: string): string {
    if Count(s, '.') > 1 then
      CountZero(s, '.');
      DropLaterDots(s)
    else s
  }

  /** The text `get_interval` parses, or `None` when it reads the input
      as `0.0` without parsing. */
  function Sanitize(raw: string): Option<string> {
    var s := Normalize(raw);
    if IsBlank(s) then None else Some(AtMostOneDot(FilterAfterSign(s)))
  }

  /** What a sanitised text looks like: not empty, no comma, at most one
      dot, and after a sign nothing but digits and dots. */
  lemma SanitizedShape(raw: string)
    requires Sanitize(raw).Some?
    ensures var s := Sanitize(raw).value;
      && |s| > 0
      && ',' !in s
      && Count(s, '.') <= 1
      && (IsSign(s[0]) ==> forall c :: c in s[1..] ==> IsNumberChar(c))
  {
    var n := Normalize(raw);
    assert ',' !in n;
    var f := FilterAfterSign(n);
    assert ',' !in f by {
      if IsSign(n[0]) {
        assert f == [n[0]] + KeepNumberChars(n[1..]);
      }
    }
    assert IsSign(f[0]) ==> forall c :: c in f[1..] ==> IsNumberChar(c) by {
      if IsSign(f[0]) {
        assert IsSign(n[0]);
        assert f[1..] == KeepNumberChars(n[1..]);
      }
    }
    if Count(f, '.') > 1 {
      CountZero(f, '.');
      DropLaterDotsShape(f);
    }
  }

  lemma DropLaterDotsShape(f: string)
    requires '.' in f && ',' !in f && |f| > 0
    requires IsSign(f[0]) ==> forall c :: c in f[1..] ==> IsNumberChar(c)
    ensures var s := DropLaterDots(f);
      && |s| > 0 && ',' !in s && Count(s, '.') <= 1
      && (IsSign(s[0]) ==> forall c :: c in s[1..] ==> IsNumberChar(c))
  {
    var i := FirstIndex(f, '.');
    var s := DropLaterDots(f);
    DropLaterDotsKeepsTheRest(f);
    var tail := RemoveChar(f[i + 1..], '.');
    assert s == f[..i] + "." + tail;
    if IsSign(s[0]) {
      assert i > 0 && s[0] == f[0];
      assert s[1..] == f[1..i] + "." + tail;
      forall c | c in s[1..]
        ensures IsNumberChar(c)
      {
        if c in f[1..i] {
          var j :| 0 <= j < |f[1..i]| && f[1..i][j] == c;
          assert f[1..][j] == c;
        } else if c in tail {
          var j :| 0 <= j < |tail| && tail[j] == c;
          assert c in f[i + 1..];
          var k :| 0 <= k < |f[i + 1..]| && f[i + 1..][k] == c;
          assert f[1..][i + k] == c;
        }
      }
    }
  }

  /** Without a sign nothing is filtered: only dots after the first are
      deleted, and a text with at most one dot is kept as it is. */
  lemma UnsignedTextIsOnlyDeDotted(raw: string)
    requires !IsBlank(Normalize(raw)) && !IsSign(Normalize(raw)[0])
    ensures RemoveChar(Sanitize(raw).value, '.') == RemoveChar(Normalize(raw), '.')
    ensures Count(Normalize(raw), '.') <= 1 ==> Sanitize(raw) == Some(Normalize(raw))
  {
    var n := Normalize(raw);
    if Count(n, '.') > 1 {
      CountZero(n, '.');
      DropLaterDotsKeepsTheRest(n);
    }
  }

  /** A text input that remembers the value it was created with, which
      `reset()` restores. */
  class TextInput {
    var value: string
    const initial: string

    constructor(initial: string)
      ensures value == initial && this.initial == initial
    {
      value := initial;
      this.initial := initial;
    }

    method Reset()
      modifies this
      ensures value == initial
    {
      value := initial;
    }
  }

  /** The number one input yields, or `None` where `float()` raises even
      on the reset text. */
  function InputNumber(raw: string, initial: string, parse: string -> Option<real>): Option<real> {
    match Sanitize(raw)
    case None => Some(0.0)
    case Some(s) => if parse(s).Some? then parse(s) else parse(initial)
  }

  /** The text the input shows afterwards: the sanitised text when it
      parses, the initial text when it does not, and the old text when it
      was read as `0.0`. */
  function InputText(raw: string, initial: string, parse: string -> Option<real>): string {
    match Sanitize(raw)
    case None => raw
    case Some(s) => if parse(s).Some? then s else initial
  }

  /** One pass of the loop of `get_interval`: clean up the text, parse it,
      and write the cleaned text back or reset the input. */
  method ReadNumber(input: TextInput, parse: string -> Option<real>) returns (r: Option<real>)
    modifies input
    ensures r == InputNumber(old(input.value), input.initial, parse)
    ensures input.value == InputText(old(input.value), input.initial, parse)
  {
    var s := ReplaceChar(Strip(input.value), ',', '.');
    if s != "" && s != "-" && s != "+" {
      if s[0] == '+' || s[0] == '-' {
        s := [s[0]] + KeepNumberChars(s[1..]);
      }
      if Count(s, '.') > 1 {
        CountZero(s, '.');
        s := DropLaterDots(s);
      }
      var value := parse(s);
      if value.Some? {
        input.value := s;
        r := value;
      } else {
        input.Reset();
        r := parse(input.value);
      }
    } else {
      r := Some(0.0);
    }
  }

  /** `get_interval((start, stop))`: the two numbers in input order, or
      `None` where `float()` raises. */
  method GetInterval(start: TextInput, stop: TextInput, parse: string -> Option<real>) returns (r: Option<(real, real)>)
    modifies start, stop
    ensures start != stop ==>
      var low, high := InputNumber(old(start.value), start.initial, parse), InputNumber(old(stop.value), stop.initial, parse);
      && r == (if low.Some? && high.Some? then Some((low.value, high.value)) else None)
      && start.value == InputText(old(start.value), start.initial, parse)
      && stop.value == (if low.Some? then InputText(old(stop.value), stop.initial, parse) else old(stop.value))
  {
    ghost var stopText := stop.value;
    var low := ReadNumber(start, parse);
    if low.None? {
      return None;
    }
    assert start != stop ==> stop.value == stopText;
    var high := ReadNumber(stop, parse);
    if high.None? {
      return None;
    }
    return Some((low.value, high.value));
  }

  /** A checkbox: whether it is checked and whether it is disabled. */
  class Checkbox {
    var checked: bool
    var disabled: bool

    constructor()
      ensures !checked && !disabled
    {
      checked := false;
      disabled := false;
    }
  }

  /** The state of one checkbox. */
  datatype BoxState = BoxState(checked: bool, disabled: bool)

  /** `first` is disabled exactly while `second` is checked, and a
      disabled box is unchecked. */
  function Excluded(first: BoxState, secondChecked: bool): BoxState {
    BoxState(if secondChecked then false else first.checked, secondChecked)
  }

  /** Both steps for one variable: the decimal box against the proper
      box, then the proper box against the updated decimal box. */
  function ExclusionPass(proper: BoxState, decimal: BoxState): (BoxState, BoxState) {
    var d := Excluded(decimal, proper.checked);
    (Excluded(proper, d.checked), d)
  }

  /** The two boxes are never both checked; a checked proper box wins and
      stays enabled; a box checked alone stays checked. */
  lemma ExclusionRule(proper: BoxState, decimal: BoxState)
    ensures var (p, d) := ExclusionPass(proper, decimal);
      && !(p.checked && d.checked)
      && p.checked == proper.checked
      && d.checked == (decimal.checked && !proper.checked)
      && (p.disabled <==> d.checked)
      && (d.disabled <==> p.checked)
  {
  }

  /** A second pass changes nothing: the page shows the same boxes when it
      is drawn again. */
  lemma ExclusionPassIsStable(proper: BoxState, decimal: BoxState)
    ensures var (p, d) := ExclusionPass(proper, decimal);
      ExclusionPass(p, d) == (p, d)
  {
  }

  /** One step of the inner loop of `get_fractions`. */
  method Exclude(first: Checkbox, second: Checkbox)
    modifies first
    ensures BoxState(first.checked, first.disabled) ==
      Excluded(old(BoxState(first.checked, first.disabled)), old(second.checked))
  {
    first.disabled := second.checked;
    first.checked := if first.disabled then false else first.checked;
  }

  /** The loop body of `get_fractions` for one variable: the decimal box
      against the proper box, then the proper box against the decimal box. */
  method ExcludePair(proper: Checkbox, decimal: Checkbox)
    requires proper != decimal
    modifies proper, decimal
    ensures (BoxState(proper.checked, proper.disabled), BoxState(decimal.checked, decimal.disabled)) == ExclusionPass(old(BoxState(proper.checked, proper.disabled)), old(BoxState(decimal.checked, decimal.disabled)))
  {
    Exclude(decimal, proper);
    Exclude(proper, decimal);
  }

  /** Every checkbox of every variable is a distinct object. */
  predicate DistinctBoxes(proper: seq<Checkbox>, decimal: seq<Checkbox>)
    requires |proper| == |decimal|
  {
    forall i, j :: 0 <= i < |proper| && 0 <= j < |proper| ==>
      proper[i] != decimal[j] && (i != j ==> proper[i] != proper[j] && decimal[i] != decimal[j])
  }

  /** The position of the last `n` in `names`, or -1: the entry a
      dictionary keeps when a key is stored more than once. */
  function LastIndexOf(names: seq<string>, n: string): (i: int)
    ensures -1 <= i < |names|
    ensures i >= 0 <==> n in names
    ensures i >= 0 ==> names[i] == n && forall j :: i < j < |names| ==> names[j] != n
  {
    if |names| == 0 then -1
    else if names[|names| - 1] == n then |names| - 1
    else LastIndexOf(names[..|names| - 1], n)
  }

  /** One more name: it is its own last occurrence, and every other name
      keeps its last occurrence. */
  lemma LastIndexStep(names: seq<string>, i: nat)
    requires i < |names|
    ensures forall n :: n in names[..i + 1] <==> n in names[..i] || n == names[i]
    ensures forall n :: LastIndexOf(names[..i + 1], n) == if n == names[i] then i else LastIndexOf(names[..i], n)
  {
    var front := names[..i + 1];
    assert front == names[..i] + [names[i]];
    assert front[..i] == names[..i];
    forall n
      ensures LastIndexOf(front, n) == if n == names[i] then i else LastIndexOf(names[..i], n)
    {
      assert front[|front| - 1] == names[i];
    }
  }

  /** `get_fractions(*variable_names)` on the checkboxes drawn for the
      variables: applies the exclusion rule to each pair and reports the
      flags by name, a repeated name reporting its last pair. */
  method GetFractions(names: seq<string>, proper: seq<Checkbox>, decimal: seq<Checkbox>)
    returns (properFlags: map<string, bool>, decimalFlags: map<string, bool>)
    requires |proper| == |names| && |decimal| == |names| && DistinctBoxes(proper, decimal)
    modifies set i | 0 <= i < |names| :: proper[i]
    modifies set i | 0 <= i < |names| :: decimal[i]
    ensures forall i :: 0 <= i < |names| ==>
      (BoxState(proper[i].checked, proper[i].disabled), BoxState(decimal[i].checked, decimal[i].disabled)) ==
      ExclusionPass(old(BoxState(proper[i].checked, proper[i].disabled)), old(BoxState(decimal[i].checked, decimal[i].disabled)))
    ensures properFlags.Keys == decimalFlags.Keys == (set n | n in names)
    ensures forall n :: n in properFlags ==>
      properFlags[n] == proper[LastIndexOf(names, n)].checked && decimalFlags[n] == decimal[LastIndexOf(names, n)].checked
    ensures forall n :: n in properFlags ==> !(properFlags[n] && decimalFlags[n])
  {
    var properBoxes, decimalBoxes := BoxesByName(names, proper, decimal);
    ApplyExclusion(proper, decimal);
    properFlags := CheckedByName(properBoxes);
    decimalFlags := CheckedByName(decimalBoxes);
    forall n | n in properFlags
      ensures !(properFlags[n] && decimalFlags[n])
    {
      var j := LastIndexOf(names, n);
      ExclusionRule(old(BoxState(proper[j].checked, proper[j].disabled)), old(BoxState(decimal[j].checked, decimal[j].disabled)));
    }
  }

  /** `{name: checkbox.checked for name, checkbox in boxes.items()}`. */
  function CheckedByName(boxes: map<string, Checkbox>): (flags: map<string, bool>)
    reads boxes.Values
    ensures flags.Keys == boxes.Keys
    ensures forall n :: n in boxes ==> flags[n] == boxes[n].checked
  {
    map n | n in boxes :: boxes[n].checked
  }

  /** The two dictionaries `get_fractions` fills, name to checkbox. */
  method BoxesByName(names: seq<string>, proper: seq<Checkbox>, decimal: seq<Checkbox>)
    returns (properBoxes: map<string, Checkbox>, decimalBoxes: map<string, Checkbox>)
    requires |proper| == |names| && |decimal| == |names|
    ensures properBoxes.Keys == decimalBoxes.Keys == (set n | n in names)
    ensures forall n :: n in properBoxes ==>
      properBoxes[n] == proper[LastIndexOf(names, n)] && decimalBoxes[n] == decimal[LastIndexOf(names, n)]
  {
    properBoxes, decimalBoxes := map[], map[];
    for i := 0 to |names|
      invariant properBoxes.Keys == decimalBoxes.Keys == (set n | n in names[..i])
      invariant forall n :: n in properBoxes ==>
        properBoxes[n] == proper[LastIndexOf(names[..i], n)] && decimalBoxes[n] == decimal[LastIndexOf(names[..i], n)]
    {
      LastIndexStep(names, i);
      properBoxes := properBoxes[names[i] := proper[i]];
      decimalBoxes := decimalBoxes[names[i] := decimal[i]];
    }
    assert names[..|names|] == names;
  }

  /** The exclusion step of `get_fractions`, variable by variable. */
  method ApplyExclusion(proper: seq<Checkbox>, decimal: seq<Checkbox>)
    requires |proper| == |decimal| && DistinctBoxes(proper, decimal)
    modifies set i | 0 <= i < |proper| :: proper[i]
    modifies set i | 0 <= i < |proper| :: decimal[i]
    ensures forall i :: 0 <= i < |proper| ==>
      (BoxState(proper[i].checked, proper[i].disabled), BoxState(decimal[i].checked, decimal[i].disabled)) ==
      ExclusionPass(old(BoxState(proper[i].checked, proper[i].disabled)), old(BoxState(decimal[i].checked, decimal[i].disabled)))
  {
    for i := 0 to |proper|
      invariant forall j :: 0 <= j < i ==>
        (BoxState(proper[j].checked, proper[j].disabled), BoxState(decimal[j].checked, decimal[j].disabled)) ==
        ExclusionPass(old(BoxState(proper[j].checked, proper[j].disabled)), old(BoxState(decimal[j].checked, decimal[j].disabled)))
      invariant forall j :: i <= j < |proper| ==>
        BoxState(proper[j].checked, proper[j].disabled) == old(BoxState(proper[j].checked, proper[j].disabled)) &&
        BoxState(decimal[j].checked, decimal[j].disabled) == old(BoxState(decimal[j].checked, decimal[j].disabled))
    {
      ExcludePair(proper[i], decimal[i]);
    }
  }

  /** The slider's bounds. */
  const MinEquations: int := 1
  const MaxEquations: int := 50

  /** The slider value after a render in which `-` and `+` were clicked
      or not: one step down, else one step up, as long as it stays within
      the bounds; otherwise unchanged. */
  function NextSliderValue(value: int, lessClicked: bool, moreClicked: bool): int {
    if lessClicked && value - 1 >= MinEquations then value - 1
    else if moreClicked && value + 1 <= MaxEquations then value + 1
    else value
  }

  /** The value moves by at most one, only on a click, and never leaves
      the bounds once inside them. */
  lemma SliderStaysInBounds(value: int, lessClicked: bool, moreClicked: bool)
    ensures var next := NextSliderValue(value, lessClicked, moreClicked);
      && (MinEquations <= value <= MaxEquations ==> MinEquations <= next <= MaxEquations)
      && -1 <= next - value <= 1
      && (next == value - 1 <==> lessClicked && value - 1 >= MinEquations)
      && (next == value + 1 <==> !(lessClicked && value - 1 >= MinEquations) && moreClicked && value + 1 <= MaxEquations)
  {
  }

  /** The slider of `num_of_equations`, created at 6. */
  class Slider {
    var value: int

    constructor()
      ensures value == 6
    {
      value := 6;
    }
  }

  /** `num_of_equations()` for one render: apply the clicks and return the
      value. */
  method NumOfEquations(slider: Slider, lessClicked: bool, moreClicked: bool) returns (n: int)
    modifies slider
    ensures slider.value == NextSliderValue(old(slider.value), lessClicked, moreClicked)
    ensures n == slider.value
  {
    if lessClicked && slider.value - 1 >= MinEquations {
      slider.value := slider.value - 1;
    } else if moreClicked && slider.value + 1 <= MaxEquations {
      slider.value := slider.value + 1;
    }
    n := slider.value;
  }
}
