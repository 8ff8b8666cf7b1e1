/** What a printed operand expression means as C++: a reader that knows nothing of the printer
    evaluates the text, and gets the value of the expression. */
module PrintedMeaning {
  import opened Wrappers
  import opened OperandExpr

  // ---------------------------------------------------------------- reading a text

  /** The position of the first `c`, or the length. */
  function UpTo(s: string, c: char): (k: nat)
    ensures k <= |s| && c !in s[..k] && (k < |s| ==> s[k] == c)
  {
    if s == [] || s[0] == c then 0
    else
      var k := UpTo(s[1..], c);
      assert s[..k + 1] == [s[0]] + s[1..][..k];
      k + 1
  }

  /** The text goes on with the call that reads an operand, and something may follow that. */
  predicate NameEnds(s: string)
  {
    |s| >= 14 && s[..14] == ".AsRawValue())" && (|s| == 14 || s[14] == ')' || s[14] == '+' || s[14] == '-')
  }

  /** Where a name ends: at the first such place. */
  function NameLength(s: string): (k: Option<nat>)
    ensures k.Some? ==> k.value + 14 <= |s|
  {
    if NameEnds(s) then Some(0)
    else if s == [] then None
    else
      var k := NameLength(s[1..]);
      if k.Some? then Some(k.value + 1) else None
  }

  predicate Starts(s: string, prefix: string) { |s| >= |prefix| && s[..|prefix|] == prefix }

  predicate AllDigits(s: string) { s != [] && forall i :: 0 <= i < |s| ==> s[i] in DIGITS }

  predicate IsNumeral(s: string) { s != [] && (if s[0] == '-' then AllDigits(s[1..]) else AllDigits(s)) }

  function NumeralValue(s: string): int
    requires IsNumeral(s)
  {
    if s[0] == '-' then var v: int := ValueOf(s[1..]); -v else ValueOf(s)
  }

  /** A member of the struct, read as a raw value, or a number; the opening parenthesis is gone. */
  function EvaluateLeaf(s: string, structName: string, env: string -> int): (r: Option<(int, string)>)
    ensures r.Some? ==> |r.value.1| < |s|
  {
    if Starts(s, structName + ".") then
      var rest := s[|structName| + 1..];
      var k := NameLength(rest);
      if k.None? then None else Some((env(rest[..k.value]), rest[k.value + 14..]))
    else
      var k := UpTo(s, ')');
      if k < |s| && IsNumeral(s[..k]) then Some((NumeralValue(s[..k]), s[k + 1..])) else None
  }

  /** The value of the expression at the start of a C++ text, and what follows it: a number or a sum
      or difference in parentheses, or a parenthesised member of the struct read as a raw value. */
  function Evaluate(s: string, structName: string, env: string -> int): (r: Option<(int, string)>)
    ensures r.Some? ==> |r.value.1| < |s|
    decreases |s|
  {
    if |s| < 2 || s[0] != '(' then None
    else if s[1] == '(' then
      var left := Evaluate(s[1..], structName, env);
      if left.None? || left.value.1 == [] then None
      else
        var op := left.value.1[0];
        var right := Evaluate(left.value.1[1..], structName, env);
        if right.None? || right.value.1 == [] || right.value.1[0] != ')' || (op != '+' && op != '-') then None
        else
          var (x, y) := (left.value.0, right.value.0);
          Some((if op == '+' then x + y else x - y, right.value.1[1..]))
    else EvaluateLeaf(s[1..], structName, env)
  }

  /** The value of a whole text. */
  function Meaning(text: string, structName: string, env: string -> int): Option<int>
  {
    var r := Evaluate(text, structName, env);
    if r.Some? && r.value.1 == [] then Some(r.value.0) else None
  }

  // ---------------------------------------------------------------- leaves

  lemma ClosingIs()
    ensures Closing() == ".AsRawValue())"
  {
  }

  lemma NameEndsIs(s: string)
    ensures NameEnds(s) <==> |s| >= 14 && s[..14] == Closing() && Continues(s[14..])
  {
    ClosingIs();
  }

  /** A name that does not end early is read back whole. */
  lemma {:induction false} NameLengthIs(name: string, u: string)
    requires !EndsEarly(name) && Continues(u)
    ensures NameLength(name + Closing() + u) == Some(|name|)
    decreases |name|
  {
    hide EndsEarly, NameEnds, Closing;
    var end := Closing();
    var s := name + end + u;
    NameEndsIs(s);
    if name == [] {
      assert s == end + u && s[..14] == end && s[14..] == u;
    } else {
      if NameEnds(s) {
        assert s == [] + end + s[14..];
        NotEarly(name, s[14..], u);
      }
      assert s[1..] == name[1..] + end + u;
      if EndsEarly(name[1..]) { EarlyWithMore(name); }
      NameLengthIs(name[1..], u);
    }
  }

  lemma EarlyWithMore(name: string)
    requires name != [] && EndsEarly(name[1..])
    ensures EndsEarly(name)
  {
    hide Closing;
    var c :| Follows(c) && Contains(name[1..], Closing() + [c]);
    var before, after :| name[1..] == before + (Closing() + [c]) + after;
    assert name == [name[0]] + name[1..];
    assert name == ([name[0]] + before) + (Closing() + [c]) + after;
    assert Contains(name, Closing() + [c]);
  }

  lemma NotEarly(name: string, v: string, u: string)
    requires name != [] && !EndsEarly(name) && Continues(u) && Continues(v)
    ensures [] + Closing() + v != name + Closing() + u
  {
    hide Contains, Closing;
    if [] + Closing() + v == name + Closing() + u {
      InsideLonger([], name, Closing(), v, u);
    }
  }

  lemma {:induction false} UpToIs(a: string, c: char, u: string)
    requires c !in a
    ensures UpTo(a + [c] + u, c) == |a|
  {
    var s := a + [c] + u;
    if a != [] {
      assert s[0] == a[0] && s[1..] == a[1..] + [c] + u;
      UpToIs(a[1..], c, u);
    }
  }

  lemma NumeralOf(v: int)
    ensures IsNumeral(IntText(v)) && NumeralValue(IntText(v)) == v
  {
    hide Decimal, ValueOf, IntText;
    IntTextSign(v);
    ValueOfDecimal(if v < 0 then -v else v);
    var text := IntText(v);
    if v < 0 {
      assert text[1..] == Decimal(-v);
    } else {
      assert text[0..] == text;
    }
  }

  lemma EvaluateNumber(v: int, structName: string, env: string -> int, u: string)
    requires PlainStruct(structName)
    ensures Evaluate(Text(Number(v), structName) + u, structName, env) == Some((v, u))
  {
    hide IntText, IsNumeral, NumeralValue, UpTo;
    var s := Text(Number(v), structName) + u;
    NumberText(v, structName, u);
    NumberCharacters(v);
    NumeralOf(v);
    var inner := IntText(v) + ")" + u;
    assert s[0] == '(' && s[1] == s[1..][0];
    if Starts(inner, structName + ".") {
      assert inner == (structName + ".") + inner[|structName| + 1..];
      NumberIsNoOperand(IntText(v), structName, u, inner[|structName| + 1..]);
    }
    UpToIs(IntText(v), ')', u);
    assert inner[..|IntText(v)|] == IntText(v) && inner[|IntText(v)| + 1..] == u;
  }

  lemma EvaluateOperand(name: string, structName: string, env: string -> int, u: string)
    requires PlainStruct(structName) && !EndsEarly(name) && Continues(u)
    ensures Evaluate(Text(Operand(name), structName) + u, structName, env) == Some((env(name), u))
  {
    hide Closing, EndsEarly, NameLength;
    var s := Text(Operand(name), structName) + u;
    OperandText(name, structName, u);
    var rest := name + Closing() + u;
    var inner := structName + "." + rest;
    assert s[0] == '(' && s[1] == s[1..][0];
    assert inner[..|structName| + 1] == structName + "." && inner[|structName| + 1..] == rest;
    NameLengthIs(name, u);
    assert rest[..|name|] == name && rest[|name| + 14..] == u;
  }

  /** Reading the text of an expression gives its value and stops behind it. */
  lemma {:induction false} EvaluateText(t: Tree, structName: string, env: string -> int, u: string)
    requires Finite(t) && PlainNames(t) && PlainStruct(structName) && Continues(u)
    ensures Evaluate(Text(t, structName) + u, structName, env) == Some((Eval(t, env), u))
    decreases t
  {
    hide Text, Evaluate, PlainNames;
    PlainParts(t);
    match t
    case Number(v) => EvaluateNumber(v, structName, env, u);
    case Operand(name) => EvaluateOperand(name, structName, env, u);
    case Add(l, r) =>
      EvaluateText(l, structName, env, "+" + Text(r, structName) + ")" + u);
      EvaluateText(r, structName, env, ")" + u);
      EvaluateBinary(t, structName, env, u);
    case Sub(l, r) =>
      EvaluateText(l, structName, env, "-" + Text(r, structName) + ")" + u);
      EvaluateText(r, structName, env, ")" + u);
      EvaluateBinary(t, structName, env, u);
  }

  lemma PlainParts(t: Tree)
    requires PlainNames(t)
    ensures t.Operand? ==> !EndsEarly(t.name)
    ensures IsBinary(t) ==> PlainNames(t.l) && PlainNames(t.r)
  {
  }

  /** The case of a sum or a difference. */
  lemma EvaluateBoth(s: string, structName: string, env: string -> int, left: (int, string), right: (int, string))
    requires |s| >= 2 && s[0] == '(' && s[1] == '(' && Evaluate(s[1..], structName, env) == Some(left)
    requires left.1 != [] && (left.1[0] == '+' || left.1[0] == '-')
    requires Evaluate(left.1[1..], structName, env) == Some(right) && right.1 != [] && right.1[0] == ')'
    ensures Evaluate(s, structName, env)
            == Some((if left.1[0] == '+' then left.0 + right.0 else left.0 - right.0, right.1[1..]))
  {
    hide EvaluateLeaf;
  }

  lemma EvaluateBinary(t: Tree, structName: string, env: string -> int, u: string)
    requires IsBinary(t) && Finite(t)
    requires
      var rest := [Operator(t)] + Text(t.r, structName) + ")" + u;
      Evaluate(Text(t.l, structName) + rest, structName, env) == Some((Eval(t.l, env), rest))
    requires Evaluate(Text(t.r, structName) + (")" + u), structName, env) == Some((Eval(t.r, env), ")" + u))
    ensures Evaluate(Text(t, structName) + u, structName, env) == Some((Eval(t, env), u))
  {
    hide Text, Eval, Evaluate;
    BinaryText(t, structName);
    var rest := [Operator(t)] + Text(t.r, structName) + ")" + u;
    var s := Text(t, structName) + u;
    assert s[1..] == Text(t.l, structName) + rest;
    assert s[0] == '(' && s[1] == s[1..][0] == Text(t.l, structName)[0];
    assert rest[0] == Operator(t) && rest[1..] == Text(t.r, structName) + (")" + u);
    assert (")" + u)[0] == ')' && (")" + u)[1..] == u;
    EvaluateBoth(s, structName, env, (Eval(t.l, env), rest), (Eval(t.r, env), ")" + u));
    EvalOfBinary(t, env);
  }

  lemma EvalOfBinary(t: Tree, env: string -> int)
    requires IsBinary(t)
    ensures
      var (x, y) := (Eval(t.l, env), Eval(t.r, env));
      Eval(t, env) == if Operator(t) == '+' then x + y else x - y
  {
  }

  /** The printed text means the expression. */
  lemma PrintedMeansTree(t: Tree, structName: string, env: string -> int)
    requires Printed(t, structName).Some? && PlainNames(t) && PlainStruct(structName)
    ensures Meaning(Printed(t, structName).value, structName, env) == Some(Eval(t, env))
  {
    hide Text, Evaluate, PlainNames;
    PrintedIs(t, structName);
    var s := NoInfinity(t);
    EvaluateText(s, structName, env, "");
    assert Text(s, structName) + "" == Text(s, structName);
    if t.Infinity? { assert Eval(Number(-1), env) == -1; }
  }
}
