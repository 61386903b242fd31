/** Template instantiation: `InstantiateTemplate` of src/StringUtils.cpp,
    which replaces every `${name}` of a template by the value the map gives
    `name`. */
module Templates {

  /** The states of the scanner. */
  datatype Mode = Normal | Escape | TokenStart | Token

  /** Everything the scanner keeps: its state, the variable name read so far
      and the text built so far. */
  datatype Machine = Machine(mode: Mode, token: string, builder: string)

  const Initial := Machine(Normal, "", "")

  /** The value of a variable, or nothing when the map has no entry for it. */
  function Lookup(variables: map<string, string>, name: string): string {
    if name in variables then variables[name] else ""
  }

  /** How the scanner reads one character. */
  function Step(m: Machine, c: char, variables: map<string, string>): Machine {
    match m.mode
    case Normal =>
      if c == '\\' then Machine(Escape, m.token, m.builder)
      else if c == '$' then Machine(TokenStart, m.token, m.builder)
      else Machine(Normal, m.token, m.builder + [c])
    case Escape =>
      Machine(Normal, m.token, m.builder + [c])
    case TokenStart =>
      if c == '{' then Machine(Token, "", m.builder)
      else Machine(Normal, m.token, m.builder + ['$', c])
    case Token =>
      if c == '}' then Machine(Normal, m.token, m.builder + Lookup(variables, m.token))
      else Machine(Token, m.token + [c], m.builder)
  }

  /** The scanner after reading all of `t` from `m`. */
  function Run(m: Machine, t: string, variables: map<string, string>): Machine
    decreases |t|
  {
    if t == [] then m else Run(Step(m, t[0], variables), t[1..], variables)
  }

  /** The position of the first `}` of `u`, or `|u|` when there is none. */
  function CloseAt(u: string): (k: nat)
    ensures k <= |u|
    ensures k < |u| ==> u[k] == '}'
    ensures forall i | 0 <= i < k :: u[i] != '}'
  {
    if u == [] || u[0] == '}' then 0 else 1 + CloseAt(u[1..])
  }

  /** What a template means, read by its structure rather than character by
      character: `\x` stands for `x`; `${name}` for the value of `name`;
      `$x`, for any other `x`, for itself; a `\` or `$` at the very end and
      a `${` that is never closed stand for nothing; any other character
      stands for itself. */
  function Render(t: string, variables: map<string, string>): string
    decreases |t|
  {
    if t == [] then []
    else if t[0] == '\\' then
      if |t| == 1 then [] else [t[1]] + Render(t[2..], variables)
    else if t[0] == '$' then
      if |t| == 1 then []
      else if t[1] != '{' then ['$', t[1]] + Render(t[2..], variables)
      else
        var u := t[2..];
        var k := CloseAt(u);
        if k == |u| then [] else Lookup(variables, u[..k]) + Render(u[k + 1..], variables)
    else [t[0]] + Render(t[1..], variables)
  }

  /** InstantiateTemplate (src/StringUtils.cpp:293-356). */
  method InstantiateTemplate(templateText: string, variables: map<string, string>) returns (output: string)
    ensures output == Render(templateText, variables)
  {
    var builder := "";
    var state := Normal;
    var token := "";
    for i := 0 to |templateText|
      invariant Run(Machine(state, token, builder), templateText[i..], variables) ==
        Run(Initial, templateText, variables)
    {
      assert templateText[i..][1..] == templateText[i + 1..];
      var c := templateText[i];
      match state {
        case Normal =>
          if c == '\\' {
            state := Escape;
          } else if c == '$' {
            state := TokenStart;
          } else {
            builder := builder + [c];
          }
        case Escape =>
          state := Normal;
          builder := builder + [c];
        case TokenStart =>
          if c == '{' {
            state := Token;
            token := "";
          } else {
            state := Normal;
            builder := builder + ['$', c];
          }
        case Token =>
          if c == '}' {
            builder := builder + Lookup(variables, token);
            state := Normal;
          } else {
            token := token + [c];
          }
      }
    }
    output := builder;
    RunRender(templateText, "", "", variables);
  }

  /** Inside `${`, the scanner collects characters up to the first `}`, then
      emits the value of what it collected and resumes. */
  lemma {:induction false} TokenRunClosed(token: string, builder: string, u: string, variables: map<string, string>)
    requires CloseAt(u) < |u|
    ensures var k := CloseAt(u);
      Run(Machine(Token, token, builder), u, variables) ==
        Run(Machine(Normal, token + u[..k], builder + Lookup(variables, token + u[..k])), u[k + 1..], variables)
    decreases |u|
  {
    if u[0] == '}' {
      assert token + u[..0] == token;
    } else {
      TokenRunClosed(token + [u[0]], builder, u[1..], variables);
      var k := CloseAt(u[1..]);
      assert (token + [u[0]]) + u[1..][..k] == token + u[..k + 1];
      assert u[1..][k + 1..] == u[k + 2..];
    }
  }

  /** TokenRunClosed for the token that `${` starts afresh. */
  lemma TokenRunFresh(builder: string, u: string, variables: map<string, string>)
    requires CloseAt(u) < |u|
    ensures var k := CloseAt(u);
      Run(Machine(Token, "", builder), u, variables) ==
        Run(Machine(Normal, u[..k], builder + Lookup(variables, u[..k])), u[k + 1..], variables)
  {
    TokenRunClosed("", builder, u, variables);
    assert "" + u[..CloseAt(u)] == u[..CloseAt(u)];
  }

  /** With no `}` ahead, the scanner collects the rest into the token and emits nothing. */
  lemma {:induction false} TokenRunOpen(token: string, builder: string, u: string, variables: map<string, string>)
    requires forall i | 0 <= i < |u| :: u[i] != '}'
    ensures Run(Machine(Token, token, builder), u, variables) == Machine(Token, token + u, builder)
    decreases |u|
  {
    if u == [] {
      assert token + u == token;
    } else {
      TokenRunOpen(token + [u[0]], builder, u[1..], variables);
      assert (token + [u[0]]) + u[1..] == token + u;
    }
  }

  /** The character-by-character scanner computes the structural reading,
      from any text already built and whatever token was last collected. */
  lemma {:induction false} RunRender(t: string, token: string, builder: string, variables: map<string, string>)
    ensures Run(Machine(Normal, token, builder), t, variables).builder == builder + Render(t, variables)
    decreases |t|, 1
  {
    if t == [] {
      assert builder + [] == builder;
    } else if |t| >= 2 && t[0] == '$' && t[1] == '{' {
      if CloseAt(t[2..]) < |t[2..]| {
        RunRenderVariable(t, token, builder, variables);
      } else {
        RunRenderUnclosed(t, token, builder, variables);
      }
    } else if |t| >= 2 && (t[0] == '\\' || t[0] == '$') {
      RunRenderPair(t, token, builder, variables);
    } else if t[0] == '\\' || t[0] == '$' {
      RunRenderLast(t, token, builder, variables);
    } else {
      RunRenderPlain(t, token, builder, variables);
    }
  }

  /** The case of RunRender in which `t` starts with a character that is
      neither `\` nor `$`. */
  lemma {:induction false} RunRenderPlain(t: string, token: string, builder: string, variables: map<string, string>)
    requires t != [] && t[0] != '\\' && t[0] != '$'
    ensures Run(Machine(Normal, token, builder), t, variables).builder == builder + Render(t, variables)
    decreases |t|, 0
  {
    assert Run(Machine(Normal, token, builder), t, variables) ==
      Run(Machine(Normal, token, builder + [t[0]]), t[1..], variables);
    assert Render(t, variables) == [t[0]] + Render(t[1..], variables);
    RunRender(t[1..], token, builder + [t[0]], variables);
  }

  /** The case of RunRender in which `t` is a lone `\` or `$`. */
  lemma RunRenderLast(t: string, token: string, builder: string, variables: map<string, string>)
    requires |t| == 1 && (t[0] == '\\' || t[0] == '$')
    ensures Run(Machine(Normal, token, builder), t, variables).builder == builder + Render(t, variables)
  {
    assert t[1..] == [];
    assert Render(t, variables) == [];
    assert builder + [] == builder;
  }

  /** The case of RunRender in which `t` starts with `\x`, or with `$x` for an
      `x` other than `{`. */
  lemma {:induction false} RunRenderPair(t: string, token: string, builder: string, variables: map<string, string>)
    requires |t| >= 2 && (t[0] == '\\' || t[0] == '$') && !(t[0] == '$' && t[1] == '{')
    ensures Run(Machine(Normal, token, builder), t, variables).builder == builder + Render(t, variables)
    decreases |t|, 0
  {
    var emitted := if t[0] == '\\' then [t[1]] else ['$', t[1]];
    var middle := Step(Machine(Normal, token, builder), t[0], variables);
    assert Run(Machine(Normal, token, builder), t, variables) == Run(middle, t[1..], variables);
    assert Run(middle, t[1..], variables) ==
      Run(Machine(Normal, token, builder + emitted), t[2..], variables) by {
      assert t[1..][1..] == t[2..];
    }
    assert Render(t, variables) == emitted + Render(t[2..], variables);
    RunRender(t[2..], token, builder + emitted, variables);
  }

  /** The scanner reads `${` by starting a fresh token. */
  lemma RunOpening(t: string, token: string, builder: string, variables: map<string, string>)
    requires |t| >= 2 && t[0] == '$' && t[1] == '{'
    ensures Run(Machine(Normal, token, builder), t, variables) == Run(Machine(Token, "", builder), t[2..], variables)
  {
    var middle := Machine(TokenStart, token, builder);
    assert Run(Machine(Normal, token, builder), t, variables) == Run(middle, t[1..], variables);
    assert t[1..][1..] == t[2..];
  }

  /** How Render reads a template that starts with `${`. */
  lemma RenderOpening(t: string, variables: map<string, string>)
    requires |t| >= 2 && t[0] == '$' && t[1] == '{'
    ensures var u := t[2..]; var k := CloseAt(u);
      Render(t, variables) == if k == |u| then [] else Lookup(variables, u[..k]) + Render(u[k + 1..], variables)
  {
  }

  /** The case of RunRender in which `t` starts with a `${` that is closed later. */
  lemma {:induction false} RunRenderVariable(t: string, token: string, builder: string, variables: map<string, string>)
    requires |t| >= 2 && t[0] == '$' && t[1] == '{' && CloseAt(t[2..]) < |t[2..]|
    ensures Run(Machine(Normal, token, builder), t, variables).builder == builder + Render(t, variables)
    decreases |t|, 0
  {
    var u := t[2..];
    var key, rest := u[..CloseAt(u)], u[CloseAt(u) + 1..];
    var value := Lookup(variables, key);
    RunVariable(t, key, rest, token, builder, variables);
    RunRender(rest, key, builder + value, variables);
    GroupAfterBuilder(builder, value, Render(rest, variables));
  }

  /** What is appended after the builder grouped together. */
  lemma GroupAfterBuilder(a: string, b: string, c: string)
    ensures a + b + c == a + (b + c)
  {
  }

  /** A closed `${key}` at the front: the machine emits the key's value and
      goes on in state Normal after the `}`, as Render does. */
  lemma RunVariable(t: string, key: string, rest: string, token: string, builder: string, variables: map<string, string>)
    requires |t| >= 2 && t[0] == '$' && t[1] == '{' && CloseAt(t[2..]) < |t[2..]|
    requires key == t[2..][..CloseAt(t[2..])] && rest == t[2..][CloseAt(t[2..]) + 1..]
    ensures |rest| < |t|
    ensures Run(Machine(Normal, token, builder), t, variables) ==
      Run(Machine(Normal, key, builder + Lookup(variables, key)), rest, variables)
    ensures Render(t, variables) == Lookup(variables, key) + Render(rest, variables)
  {
    RunOpening(t, token, builder, variables);
    TokenRunFresh(builder, t[2..], variables);
    RenderOpening(t, variables);
  }

  /** The case of RunRender in which `t` starts with a `${` that is never closed. */
  lemma RunRenderUnclosed(t: string, token: string, builder: string, variables: map<string, string>)
    requires |t| >= 2 && t[0] == '$' && t[1] == '{' && CloseAt(t[2..]) == |t[2..]|
    ensures Run(Machine(Normal, token, builder), t, variables).builder == builder + Render(t, variables)
  {
    RunOpening(t, token, builder, variables);
    RenderOpening(t, variables);
    TokenRunOpen("", builder, t[2..], variables);
    assert builder + [] == builder;
  }

  /** Text with no `\` and no `$` needs no instantiation. */
  predicate IsLiteralText(t: string) {
    forall i | 0 <= i < |t| :: t[i] != '\\' && t[i] != '$'
  }

  /** Literal text comes out as it is, whatever follows it. */
  lemma {:induction false} RenderLiteralPrefix(p: string, rest: string, variables: map<string, string>)
    requires IsLiteralText(p)
    ensures Render(p + rest, variables) == p + Render(rest, variables)
  {
    if p != [] {
      assert (p + rest)[1..] == p[1..] + rest;
      RenderLiteralPrefix(p[1..], rest, variables);
    } else {
      assert p + rest == rest;
    }
  }

  /** A template with no `\` and no `$` is returned unchanged. */
  lemma RenderLiteral(t: string, variables: map<string, string>)
    requires IsLiteralText(t)
    ensures Render(t, variables) == t
  {
    RenderLiteralPrefix(t, [], variables);
    assert t + [] == t;
  }

  /** `${name}` stands for the value of `name`, or for nothing when the map
      has no entry for it. */
  lemma RenderVariable(name: string, rest: string, variables: map<string, string>)
    requires forall i | 0 <= i < |name| :: name[i] != '}'
    ensures Render("${" + name + "}" + rest, variables) ==
      (if name in variables then variables[name] else "") + Render(rest, variables)
  {
    var t := "${" + name + "}" + rest;
    var u := t[2..];
    assert u == name + "}" + rest;
    assert u[|name|] == '}';
    assert CloseAt(u) == |name|;
    assert u[..|name|] == name;
    assert u[|name| + 1..] == rest;
  }

  /** `\x` stands for `x`, whatever `x` is. */
  lemma RenderEscaped(c: char, rest: string, variables: map<string, string>)
    ensures Render(['\\', c] + rest, variables) == [c] + Render(rest, variables)
  {
    assert (['\\', c] + rest)[2..] == rest;
  }

  /** `$x` stands for itself when `x` is not `{`. */
  lemma RenderDollar(c: char, rest: string, variables: map<string, string>)
    requires c != '{'
    ensures Render(['$', c] + rest, variables) == ['$', c] + Render(rest, variables)
  {
    assert (['$', c] + rest)[2..] == rest;
  }

  /** A `${` that is never closed, and a `\` or `$` at the very end, stand for nothing. */
  lemma RenderUnfinished(u: string, variables: map<string, string>)
    requires forall i | 0 <= i < |u| :: u[i] != '}'
    ensures Render("${" + u, variables) == ""
    ensures Render("$", variables) == "" && Render("\\", variables) == ""
  {
    assert ("${" + u)[2..] == u;
  }

  /** The plain stretches of the template of the source's unit test. */
  lemma ExampleTextIsLiteral()
    ensures IsLiteralText("\n        Hello, ") && IsLiteralText("!\n        The ")
    ensures IsLiteralText("0,000 {which you owe ") && IsLiteralText("}\n        is due to ")
  {
  }

  lemma ExampleTextIsLiteralToo()
    ensures IsLiteralText("{someone}\n        ") && IsLiteralText("{when}.  ") && IsLiteralText(" This one ends ")
  {
  }

  /** The end of the template of the source's unit test, for any plain
      stretch `h`: an unknown variable vanishes and so does an unterminated `${`. */
  lemma TemplateShapeEnd(unknown: string, h: string, early: string, variables: map<string, string>)
    requires IsLiteralText(h)
    requires forall i | 0 <= i < |unknown| :: unknown[i] != '}'
    requires forall i | 0 <= i < |early| :: early[i] != '}'
    requires unknown !in variables
    ensures Render("${" + unknown + "}" + (h + ("${" + early)), variables) == h
  {
    RenderUnfinished(early, variables);
    var r0 := "${" + early;
    RenderLiteralPrefix(h, r0, variables);
    assert h + [] == h;
    RenderVariable(unknown, h + r0, variables);
  }

  /** `\$` and `$\` between plain stretches. */
  lemma TemplateShapeMiddle(d: string, f: string, g: string, rest: string, variables: map<string, string>)
    requires IsLiteralText(d) && IsLiteralText(f) && IsLiteralText(g)
    ensures Render(d + (['\\', '$'] + (f + (['$', '\\'] + (g + rest)))), variables) ==
      d + (['$'] + (f + (['$', '\\'] + (g + Render(rest, variables)))))
  {
    RenderLiteralPrefix(g, rest, variables);
    var r3 := g + rest;
    RenderDollar('\\', r3, variables);
    var r4 := ['$', '\\'] + r3;
    RenderLiteralPrefix(f, r4, variables);
    var r5 := f + r4;
    RenderEscaped('$', r5, variables);
    var r6 := ['\\', '$'] + r5;
    RenderLiteralPrefix(d, r6, variables);
  }

  /** A known variable twice and `$1` between plain stretches. */
  lemma TemplateShapeStart(a: string, name: string, b: string, c: string, rest: string, variables: map<string, string>)
    requires IsLiteralText(a) && IsLiteralText(b) && IsLiteralText(c)
    requires forall i | 0 <= i < |name| :: name[i] != '}'
    requires name in variables
    ensures Render(a + ("${" + name + "}" + (b + (['$', '1'] + (c + ("${" + name + "}" + rest))))), variables)
      == a + (variables[name] + (b + (['$', '1'] + (c + (variables[name] + Render(rest, variables))))))
  {
    RenderVariable(name, rest, variables);
    var r8 := "${" + name + "}" + rest;
    RenderLiteralPrefix(c, r8, variables);
    var r9 := c + r8;
    RenderDollar('1', r9, variables);
    var r10 := ['$', '1'] + r9;
    RenderLiteralPrefix(b, r10, variables);
    var r11 := b + r10;
    RenderVariable(name, r11, variables);
    var r12 := "${" + name + "}" + r11;
    RenderLiteralPrefix(a, r12, variables);
  }

  /** The example of the source's unit test (test/src/StringUtilsTests.cpp:174-198),
      with the template and the expected text cut at the template's markup:
      known variables are replaced, an unknown one vanishes, `$1` and `$\`
      stay, `\$` becomes `$`, and the unterminated `${early` at the end
      vanishes with the rest of the line. */
  lemma TemplateExample()
    ensures
      var variables := map["who" := "World", "when" := "tomorrow", "what" := "example"];
      Render("\n        Hello, " + ("${" + "who" + "}" + ("!\n        The " + ("$1" + ("0,000 {which you owe " +
             ("${" + "who" + "}" + ("}\n        is due to " + ("\\$" + ("{someone}\n        " + ("$\\" +
             ("{when}.  " + ("${" + "something" + "}" + (" This one ends " + ("${" + "early\n    "))))))))))))), variables)
      == "\n        Hello, " + ("World" + ("!\n        The " + ("$1" + ("0,000 {which you owe " +
         ("World" + ("}\n        is due to " + ("$" + ("{someone}\n        " + ("$\\" +
         ("{when}.  " + " This one ends "))))))))))
  {
    var variables := map["who" := "World", "when" := "tomorrow", "what" := "example"];
    ExampleTextIsLiteral();
    ExampleTextIsLiteralToo();
    var a, b, c, d := "\n        Hello, ", "!\n        The ", "0,000 {which you owe ", "}\n        is due to ";
    var f, g, h, early := "{someone}\n        ", "{when}.  ", " This one ends ", "early\n    ";
    TemplateShapeEnd("something", h, early, variables);
    var tail := "${" + "something" + "}" + (h + ("${" + early));
    TemplateShapeMiddle(d, f, g, tail, variables);
    var middle := d + (['\\', '$'] + (f + (['$', '\\'] + (g + tail))));
    TemplateShapeStart(a, "who", b, c, middle, variables);
  }
}
