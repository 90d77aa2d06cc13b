/**
 * The text templates from which the Vclang PSI factory builds synthetic code:
 * a `\function` header with its telescopes and result expression, and the
 * dummy functions that carry a literal, an expression, or a prefix, infix or
 * postfix name.
 *
 * Only the text is modelled. Parsing it into PSI and picking the wanted child
 * are library code and are left out. The name validator is a parameter
 * (`isPrefixName`, `isInfixName`).
 */
module PsiFactory {
  import opened ArendCore

  // ---------------------------------------------------------------------------
  // Trailing whitespace
  // ---------------------------------------------------------------------------

  /**
   * Kotlin's `Char.isWhitespace`: the Java whitespace characters together with
   * the Unicode space, line and paragraph separators.
   */
  predicate IsWhitespace(c: char)
  {
    || c == ' ' || ('\t' <= c <= '\r') || ('\U{1C}' <= c <= '\U{1F}')
    || c == '\U{A0}' || c == '\U{1680}' || ('\U{2000}' <= c <= '\U{200A}')
    || c == '\U{2028}' || c == '\U{2029}' || c == '\U{202F}' || c == '\U{205F}' || c == '\U{3000}'
  }

  /** The text is empty or its last character is not whitespace. */
  predicate EndsVisibly(s: string)
  {
    s == [] || !IsWhitespace(s[|s| - 1])
  }

  /** Kotlin's `trimEnd()`: drop the trailing whitespace. */
  function TrimEnd(s: string): (r: string)
    ensures r <= s
    ensures EndsVisibly(r)
    ensures forall i :: |r| <= i < |s| ==> IsWhitespace(s[i])
  {
    if s == [] || !IsWhitespace(s[|s| - 1]) then s
    else TrimEnd(s[..|s| - 1])
  }

  /** The three properties above determine `TrimEnd` completely. */
  lemma TrimEndUnique(s: string, p: string)
    requires p <= s && EndsVisibly(p)
    requires forall i :: |p| <= i < |s| ==> IsWhitespace(s[i])
    ensures p == TrimEnd(s)
  {
  }

  /** Every character before a non-whitespace character survives `TrimEnd`. */
  lemma TrimEndKeeps(s: string, i: nat)
    requires i < |s| && !IsWhitespace(s[i])
    ensures s[..i + 1] <= TrimEnd(s)
  {
  }

  /** A text that already ends visibly is left as it is. */
  lemma TrimEndVisible(s: string)
    requires EndsVisibly(s)
    ensures TrimEnd(s) == s
  {
  }

  // ---------------------------------------------------------------------------
  // joinToString
  // ---------------------------------------------------------------------------

  /** The items joined by `separator`. */
  function Join(items: seq<string>, separator: string): string
  {
    if items == [] then ""
    else if |items| == 1 then items[0]
    else Join(items[..|items| - 1], separator) + separator + items[|items| - 1]
  }

  /** Kotlin's `joinToString(separator, prefix)`, with an empty postfix. */
  function JoinToString(items: seq<string>, separator: string, prefix: string): string
  {
    prefix + Join(items, separator)
  }

  /** Every item preceded by one space. */
  function SpacePrefixed(items: seq<string>): (r: string)
    ensures |r| >= |items|
  {
    if items == [] then "" else " " + items[0] + SpacePrefixed(items[1..])
  }

  lemma {:induction false} SpacePrefixedSnoc(items: seq<string>, x: string)
    ensures SpacePrefixed(items + [x]) == SpacePrefixed(items) + " " + x
    decreases |items|
  {
    if items == [] {
      assert SpacePrefixed([x]) == " " + x + SpacePrefixed([]);
    } else {
      assert (items + [x])[1..] == items[1..] + [x];
      SpacePrefixedSnoc(items[1..], x);
    }
  }

  /**
   * The telescope text of `createFunction`: each telescope preceded by one
   * space, and a single space when there is none.
   */
  lemma {:induction false} TelesText(teles: seq<string>)
    ensures JoinToString(teles, " ", " ") == if teles == [] then " " else SpacePrefixed(teles)
    decreases |teles|
  {
    if |teles| == 1 {
      assert SpacePrefixed(teles) == " " + teles[0] + SpacePrefixed([]);
    } else if |teles| > 1 {
      var init, last := teles[..|teles| - 1], teles[|teles| - 1];
      assert teles == init + [last];
      TelesText(init);
      SpacePrefixedSnoc(init, last);
      ConcatAssoc(" ", Join(init, " "), " ", last);
    }
  }

  lemma ConcatAssoc(a: string, b: string, c: string, d: string)
    ensures a + (b + c + d) == a + b + c + d
  {
  }

  // ---------------------------------------------------------------------------
  // Function code
  // ---------------------------------------------------------------------------

  /** The text `createFunction` builds before trimming. */
  function RawFunctionCode(name: string, teles: seq<string>, expr: Option<string>): string
  {
    "\\function " + name + JoinToString(teles, " ", " ") + (if expr.Some? then " : " + expr.value else "")
  }

  /** The code `createFunction` hands to the parser. */
  function FunctionCode(name: string, teles: seq<string>, expr: Option<string>): (code: string)
    ensures "\\function" <= code
    ensures code <= RawFunctionCode(name, teles, expr)
    ensures EndsVisibly(code)
    ensures forall i :: |code| <= i < |RawFunctionCode(name, teles, expr)| ==> IsWhitespace(RawFunctionCode(name, teles, expr)[i])
  {
    var raw := RawFunctionCode(name, teles, expr);
    TrimEndKeeps(raw, 8);
    TrimEnd(raw)
  }

  /** A name with some visible character survives trimming whole, after `\function `. */
  lemma FunctionCodeStartsWithName(name: string, teles: seq<string>, expr: Option<string>, i: nat)
    requires i < |name| && !IsWhitespace(name[i])
    ensures "\\function " + name[..i + 1] <= FunctionCode(name, teles, expr)
  {
    var raw := RawFunctionCode(name, teles, expr);
    var k := |"\\function "| + i;
    assert raw[k] == name[i];
    TrimEndKeeps(raw, k);
    assert raw[..k + 1] == "\\function " + name[..i + 1];
  }

  /** With a visibly ending result expression nothing is trimmed and the code ends with ` : expr`. */
  lemma FunctionCodeWithExpr(name: string, teles: seq<string>, e: string)
    requires e != [] && EndsVisibly(e)
    ensures FunctionCode(name, teles, Some(e)) == "\\function " + name + JoinToString(teles, " ", " ") + " : " + e
  {
    var raw := RawFunctionCode(name, teles, Some(e));
    assert raw[|raw| - 1] == e[|e| - 1];
    TrimEndVisible(raw);
  }

  /** With a visibly ending last telescope and no result expression nothing is trimmed either. */
  lemma FunctionCodeWithTeles(name: string, teles: seq<string>)
    requires teles != [] && teles[|teles| - 1] != [] && EndsVisibly(teles[|teles| - 1])
    ensures FunctionCode(name, teles, None) == "\\function " + name + SpacePrefixed(teles)
  {
    var last := teles[|teles| - 1];
    TelesEndWith(teles);
    EndsVisiblyAppend(SpacePrefixed(teles[..|teles| - 1]) + " ", last);
    var text := "\\function " + name + SpacePrefixed(teles);
    EndsVisiblyAppend("\\function " + name, SpacePrefixed(teles));
    assert RawFunctionCode(name, teles, None) == text + "";
    assert text + "" == text;
    TrimEndVisible(text);
  }

  lemma EndsVisiblyAppend(a: string, b: string)
    requires b != [] && EndsVisibly(b)
    ensures a + b != [] && EndsVisibly(a + b)
  {
    assert (a + b)[|a + b| - 1] == b[|b| - 1];
  }

  /** The telescope text ends with the last telescope. */
  lemma TelesEndWith(teles: seq<string>)
    requires teles != []
    ensures JoinToString(teles, " ", " ") == SpacePrefixed(teles)
    ensures SpacePrefixed(teles) == SpacePrefixed(teles[..|teles| - 1]) + " " + teles[|teles| - 1]
  {
    var init, last := teles[..|teles| - 1], teles[|teles| - 1];
    assert init + [last] == teles;
    TelesText(teles);
    SpacePrefixedSnoc(init, last);
  }

  // ---------------------------------------------------------------------------
  // Dummy functions
  // ---------------------------------------------------------------------------

  /** `createIdentifier`: a bare `\\function name`. */
  function IdentifierCode(name: string): string
  {
    FunctionCode(name, [], None)
  }

  /** The lone space of the empty telescope list is trimmed away again. */
  lemma IdentifierCodeShape(name: string)
    ensures name != [] && EndsVisibly(name) ==> IdentifierCode(name) == "\\function " + name
    ensures name == [] ==> IdentifierCode(name) == "\\function"
  {
    var raw := RawFunctionCode(name, [], None);
    assert raw == "\\function " + name + " ";
    if name == [] {
      assert raw[..9] == "\\function";
      TrimEndUnique(raw, "\\function");
    } else if EndsVisibly(name) {
      TrimEndUnique(raw, "\\function " + name);
    }
  }

  /** `createExpression`: the expression as the result of `\function dummy` without telescopes. */
  function ExpressionCode(e: string): string
  {
    FunctionCode("dummy", [], Some(e))
  }

  /** The empty telescope list still leaves its single space: two spaces before the colon. */
  lemma ExpressionCodeShape(e: string)
    ensures e != [] && EndsVisibly(e) ==> ExpressionCode(e) == "\\function dummy  : " + e
  {
    if e != [] && EndsVisibly(e) {
      FunctionCodeWithExpr("dummy", [], e);
    }
  }

  /** `createLiteral`: the literal as the only telescope of `\function dummy`. */
  function LiteralCode(literal: string): string
  {
    FunctionCode("dummy", [literal], None)
  }

  lemma LiteralCodeShape(literal: string)
    ensures literal != [] && EndsVisibly(literal) ==> LiteralCode(literal) == "\\function dummy " + literal
  {
    if literal != [] && EndsVisibly(literal) {
      FunctionCodeWithTeles("dummy", [literal]);
    }
  }

  /** `createPrefixName`: the name as a literal, behind a backtick when it is not a valid prefix name. */
  function PrefixNameCode(name: string, isPrefixName: string -> bool): (code: string)
    ensures !isPrefixName(name) && EndsVisibly(name) ==> code == "\\function dummy `" + name
    ensures isPrefixName(name) && name != [] && EndsVisibly(name) ==> code == "\\function dummy " + name
  {
    var needsPrefix := !isPrefixName(name);
    var text := if needsPrefix then "`" + name else name;
    assert needsPrefix ==> text[|text| - 1] == if name == [] then '`' else name[|name| - 1];
    LiteralCodeShape(text);
    LiteralCode(text)
  }

  /** `createInfixName`: `dummy X dummy` with X the name, behind a backtick when it is not a valid infix name. */
  function InfixNameCode(name: string, isInfixName: string -> bool): (code: string)
    ensures code == "\\function dummy  : dummy " + (if isInfixName(name) then name else "`" + name) + " dummy"
  {
    var needsPrefix := !isInfixName(name);
    var text := "dummy " + (if needsPrefix then "`" + name else name) + " dummy";
    assert text[|text| - 1] == 'y';
    ExpressionCodeShape(text);
    ExpressionCode(text)
  }

  /** `createPostfixName`: `dummy name` followed by a backtick. */
  function PostfixNameCode(name: string): (code: string)
    ensures code == "\\function dummy  : dummy " + name + "`"
  {
    var text := "dummy " + name + "`";
    assert text[|text| - 1] == '`';
    ExpressionCodeShape(text);
    ExpressionCode(text)
  }
}
