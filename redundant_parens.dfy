/**
 * The redundant-parentheses inspection of the Arend editor: the decision
 * whether a parenthesised expression `(e)` (an `ArendTuple` with a single
 * component) may lose its parentheses, and the quick fix that splices the
 * unwrapped text into the document.
 *
 * The syntax tree is represented by the flags the inspection looks at. The
 * tuple's ancestors are the list of its parents, innermost first. What the
 * foreign helpers compute is carried as data:
 * - `unwrapParens` is the tuple's `unwrapped` field.
 * - `isBinOp` on a name is a flag of the literal.
 * - `BinOpIntentionUtil.toConcreteBinOpInfixApp` is a flag of the
 *   argument-application expression.
 * - `parentArgumentAppExpr` with `appExprToConcrete` and the concrete visitor
 *   are the sequence of holes that the visitor meets, in visiting order.
 */
module RedundantParens {
  import opened ArendCore

  // ---------------------------------------------------------------------------
  // Expressions
  // ---------------------------------------------------------------------------

  /** A long name with its `\levels` expression and atom-only level arguments. */
  datatype LongNameExpr = LongNameExpr(hasLevelsExpr: bool, atomOnlyLevelCount: nat)

  /** A literal atom: whether its long name or its infix/postfix name is a binary operator. */
  datatype Literal = Literal(longNameIsBinOp: bool, ipNameIsBinOp: bool)

  /** An atom with its field accesses (`a.1.2`); the atom is a literal or not. */
  datatype AtomFieldsAcc = AtomFieldsAcc(literal: Option<Literal>, fieldAccCount: nat)

  /**
   * An argument application `f a b`: its explicit and implicit arguments, its
   * long-name head (if it is one), its atom head (if it is one) and whether the
   * binop utility reads it as an infix application.
   */
  datatype ArgumentAppExpr = ArgumentAppExpr(
    argumentCount: nat,
    longNameExpr: Option<LongNameExpr>,
    atomFieldsAcc: Option<AtomFieldsAcc>,
    isInfixBinOpApp: bool)

  /** The expression inside the parentheses. */
  datatype Expr =
    | NewExpr(hasAppPrefix: bool, localCoClauseCount: nat, hasWithBody: bool, argumentAppExpr: Option<ArgumentAppExpr>)
    | CaseExpr(hasWithBody: bool, hasReturnKw: bool)
    | OtherExpr

  /** An ancestor of the tuple in the syntax tree. */
  datatype Node =
    | AtomNode
    | AtomFieldsAccNode(fieldAccCount: nat)
    | ArgumentAppExprNode(argumentCount: nat)
    | NewExprNode
    | TupleExprNode(hasColon: bool)
    | TupleNode(componentCount: nat)
    | ImplicitArgumentNode
    // parents under which any child needs no parentheses
    | ReturnExpr | NameTele | FieldTele | TypedExpr
    | FunctionalBody | DefMeta | Clause | CoClauseBase
    | Pattern | AsPattern
    | PiExpr | LamExpr | LamTele | LetExpr | LetClause | TypeAnnotation
    | OtherNode

  /** A hole of the parent application met by the concrete visitor. */
  datatype Hole = Hole(isTuple: bool, parentIsInfixBinOpApp: bool)

  /** What `unwrapParens` yields: the inner expression and its text. */
  datatype Unwrapped = Unwrapped(expr: Expr, text: string)

  /**
   * A parenthesised expression: its ancestors (innermost first), the result
   * of unwrapping it, the holes of the concrete form of its parent
   * application (`None` when there is no parent application or it has no
   * concrete form) and its text range.
   */
  datatype Tuple = Tuple(
    ancestors: seq<Node>,
    unwrapped: Option<Unwrapped>,
    parentApp: Option<seq<Hole>>,
    startOffset: nat,
    endOffset: nat)

  // ---------------------------------------------------------------------------
  // Atomic expressions
  // ---------------------------------------------------------------------------

  /** A `\new`-level expression without app prefix, co-clauses or with-body. */
  predicate IsAtomicNew(e: Expr)
    requires e.NewExpr?
  {
    !e.hasAppPrefix && e.localCoClauseCount == 0 && !e.hasWithBody
  }

  /** An application without arguments, without level arguments, with an atom head. */
  predicate IsAtomicApp(a: ArgumentAppExpr)
  {
    a.argumentCount == 0 && HasNoLevelArguments(a) && a.atomFieldsAcc.Some?
  }

  predicate HasNoLevelArguments(a: ArgumentAppExpr)
    ensures a.longNameExpr.None? ==> HasNoLevelArguments(a)
    ensures a.longNameExpr.Some? ==>
              (HasNoLevelArguments(a) <==> !a.longNameExpr.value.hasLevelsExpr && a.longNameExpr.value.atomOnlyLevelCount == 0)
  {
    a.longNameExpr.None? || (!a.longNameExpr.value.hasLevelsExpr && a.longNameExpr.value.atomOnlyLevelCount == 0)
  }

  /** An atom that is a bare binary operator name. */
  predicate IsBinOp(acc: AtomFieldsAcc)
    ensures acc.fieldAccCount > 0 || acc.literal.None? ==> !IsBinOp(acc)
    ensures IsBinOp(acc) <==> acc.fieldAccCount == 0 && acc.literal.Some?
                               && (acc.literal.value.longNameIsBinOp || acc.literal.value.ipNameIsBinOp)
  {
    if acc.fieldAccCount > 0 then false
    else match acc.literal
      case None => false
      case Some(lit) => lit.longNameIsBinOp || lit.ipNameIsBinOp
  }

  /** The application inside an atomic `\new`-level expression, if any. */
  function ChildAppExpr(e: Expr): (r: Option<ArgumentAppExpr>)
    ensures r.Some? ==> e.NewExpr? && !e.hasAppPrefix && e.localCoClauseCount == 0 && !e.hasWithBody
    ensures r.Some? ==> e.argumentAppExpr == r
    ensures e.NewExpr? && !e.hasAppPrefix && e.localCoClauseCount == 0 && !e.hasWithBody ==> r == e.argumentAppExpr
  {
    if e.NewExpr? && IsAtomicNew(e) then e.argumentAppExpr else None
  }

  /**
   * An expression that never needs parentheses: a plain atom, that is a
   * `\new`-level expression with no prefix, co-clauses or with-body around an
   * application with no arguments and no level arguments whose head is an atom
   * that is not a binary operator.
   */
  predicate NeverNeedsParens(e: Expr)
    ensures NeverNeedsParens(e) <==>
      && e.NewExpr? && !e.hasAppPrefix && e.localCoClauseCount == 0 && !e.hasWithBody
      && e.argumentAppExpr.Some?
      && var app := e.argumentAppExpr.value;
         && app.argumentCount == 0
         && (app.longNameExpr.None? || (!app.longNameExpr.value.hasLevelsExpr && app.longNameExpr.value.atomOnlyLevelCount == 0))
         && app.atomFieldsAcc.Some?
         && (app.atomFieldsAcc.value.fieldAccCount > 0 || app.atomFieldsAcc.value.literal.None?
             || (!app.atomFieldsAcc.value.literal.value.longNameIsBinOp && !app.atomFieldsAcc.value.literal.value.ipNameIsBinOp))
  {
    var child := ChildAppExpr(e);
    child.Some? && IsAtomicApp(child.value) && !IsBinOp(child.value.atomFieldsAcc.value)
  }

  // ---------------------------------------------------------------------------
  // The common pattern: parentheses around a whole argument of a parent
  // ---------------------------------------------------------------------------

  /**
   * The atom-with-field-accesses that directly wraps the tuple, provided it
   * has no field accesses (`(f a).1` keeps its parentheses).
   */
  function ParentAtomFieldsAcc(ancestors: seq<Node>): (r: Option<Node>)
    ensures r.Some? <==> |ancestors| >= 2 && ancestors[0] == AtomNode && ancestors[1] == AtomFieldsAccNode(0)
    ensures r.Some? ==> r.value == AtomFieldsAccNode(0)
  {
    if |ancestors| >= 2 && ancestors[0].AtomNode? && ancestors[1].AtomFieldsAccNode? && ancestors[1].fieldAccCount == 0
    then Some(ancestors[1])
    else None
  }

  /** `parentNewExpr?.parent`: the parent of the `\new`-level expression that the tuple alone makes up. */
  function ParentOfParentNewExpr(ancestors: seq<Node>): Option<Node>
  {
    if ParentAtomFieldsAcc(ancestors).Some? && |ancestors| >= 5
       && ancestors[2].ArgumentAppExprNode? && ancestors[2].argumentCount == 0
       && ancestors[3].NewExprNode?
    then Some(ancestors[4])
    else None
  }

  /** The parent kinds under which no child needs parentheses. */
  const AnyChildParents: set<Node> :=
    {ReturnExpr, NameTele, FieldTele, TypedExpr,       // parameter types
     FunctionalBody, DefMeta, Clause, CoClauseBase,    // bodies, clauses, co-clauses
     Pattern, AsPattern,                               // clause patterns
     PiExpr, LamExpr, LamTele, LetExpr, LetClause, TypeAnnotation}

  predicate IsRedundantParensForAnyChild(parent: Option<Node>)
    ensures IsRedundantParensForAnyChild(parent) <==> parent.Some? && parent.value in AnyChildParents
    ensures IsRedundantParensForAnyChild(parent) ==> !parent.value.TupleExprNode? && !parent.value.TupleNode?
  {
    match parent
    case None => false
    case Some(p) =>
      || p.ReturnExpr? || p.NameTele? || p.FieldTele? || p.TypedExpr?
      || p.FunctionalBody? || p.DefMeta? || p.Clause? || p.CoClauseBase?
      || p.Pattern? || p.AsPattern?
      || p.PiExpr? || p.LamExpr? || p.LamTele? || p.LetExpr? || p.LetClause? || p.TypeAnnotation?
  }

  /**
   * A component of a tuple expression: redundant when it carries a type
   * annotation, when it is one of several components of a tuple (except a
   * bare `\case` without with-body and `\return`), or when it is an implicit
   * argument.
   */
  predicate IsRedundantParensInTupleParent(parent: Node, grand: Option<Node>, expression: Expr)
    requires parent.TupleExprNode?
    ensures parent.hasColon ==> IsRedundantParensInTupleParent(parent, grand, expression)
    ensures grand == Some(ImplicitArgumentNode) ==> IsRedundantParensInTupleParent(parent, grand, expression)
    ensures !parent.hasColon && (grand.None? || grand.value.TupleNode?) && expression.CaseExpr?
            && !expression.hasWithBody && !expression.hasReturnKw
            ==> !IsRedundantParensInTupleParent(parent, grand, expression)
    ensures grand.Some? && grand.value.TupleNode? && grand.value.componentCount > 1
            && (!expression.CaseExpr? || expression.hasWithBody || expression.hasReturnKw)
            ==> IsRedundantParensInTupleParent(parent, grand, expression)
    ensures IsRedundantParensInTupleParent(parent, grand, expression) ==>
            || parent.hasColon
            || grand == Some(ImplicitArgumentNode)
            || (grand.Some? && grand.value.TupleNode? && grand.value.componentCount > 1)
  {
    if parent.hasColon then true
    else
      || (&& grand.Some? && grand.value.TupleNode? && grand.value.componentCount > 1
          && (!expression.CaseExpr? || expression.hasWithBody || expression.hasReturnKw))
      || (grand.Some? && grand.value.ImplicitArgumentNode?)
  }

  /**
   * The tuple makes up a whole argument-free `\new`-level expression whose
   * parent needs no parentheses around any child, or whose parent is a tuple
   * component where they are redundant.
   */
  predicate IsCommonRedundantParensPattern(ancestors: seq<Node>, expression: Expr)
    ensures IsCommonRedundantParensPattern(ancestors, expression) ==>
            && |ancestors| >= 5
            && ancestors[..4] == [AtomNode, AtomFieldsAccNode(0), ArgumentAppExprNode(0), NewExprNode]
            && (ancestors[4] in AnyChildParents || ancestors[4].TupleExprNode?)
    ensures |ancestors| >= 2 && ancestors[1].AtomFieldsAccNode? && ancestors[1].fieldAccCount > 0
            ==> !IsCommonRedundantParensPattern(ancestors, expression)
    ensures |ancestors| >= 3 && ancestors[2].ArgumentAppExprNode? && ancestors[2].argumentCount > 0
            ==> !IsCommonRedundantParensPattern(ancestors, expression)
    ensures |ancestors| >= 5 && ancestors[..4] == [AtomNode, AtomFieldsAccNode(0), ArgumentAppExprNode(0), NewExprNode]
            ==> (IsCommonRedundantParensPattern(ancestors, expression) <==>
                   || ancestors[4] in AnyChildParents
                   || (&& ancestors[4].TupleExprNode?
                       && IsRedundantParensInTupleParent(ancestors[4], if |ancestors| >= 6 then Some(ancestors[5]) else None,
                                                         expression)))
  {
    var parent := ParentOfParentNewExpr(ancestors);
    var grand := if parent.Some? && |ancestors| >= 6 then Some(ancestors[5]) else None;
    || IsRedundantParensForAnyChild(parent)
    || (parent.Some? && parent.value.TupleExprNode? && IsRedundantParensInTupleParent(parent.value, grand, expression))
  }

  // ---------------------------------------------------------------------------
  // An application used as an argument of an infix operator
  // ---------------------------------------------------------------------------

  /**
   * The verdict at a hole whose expression is the tuple: its concrete parent
   * is an infix binop application and the tuple holds an atomic `\new`-level
   * application without level arguments that is not itself an infix
   * application.
   */
  predicate IsApplicationUsedAsBinOpArgumentAt(hole: Hole, expression: Expr)
    ensures IsApplicationUsedAsBinOpArgumentAt(hole, expression) <==>
            && hole.parentIsInfixBinOpApp && expression.NewExpr? && IsAtomicNew(expression)
            && expression.argumentAppExpr.Some? && HasNoLevelArguments(expression.argumentAppExpr.value)
            && !expression.argumentAppExpr.value.isInfixBinOpApp
  {
    if hole.parentIsInfixBinOpApp then
      var child := ChildAppExpr(expression);
      child.Some? && HasNoLevelArguments(child.value) && !child.value.isInfixBinOpApp
    else false
  }

  /** The position of the last hole that is the tuple itself. */
  function LastTupleHole(holes: seq<Hole>): (r: Option<nat>)
    ensures r.Some? ==> r.value < |holes| && holes[r.value].isTuple
    ensures r.Some? ==> forall j :: r.value < j < |holes| ==> !holes[j].isTuple
    ensures r.None? ==> forall j :: 0 <= j < |holes| ==> !holes[j].isTuple
  {
    if holes == [] then None
    else if holes[|holes| - 1].isTuple then Some(|holes| - 1)
    else LastTupleHole(holes[..|holes| - 1])
  }

  /**
   * The value the visitor leaves in `result`: the verdict at the last hole that
   * is the tuple, or false when there is none or no parent application.
   */
  predicate UsedAsBinOpArgument(t: Tuple, expression: Expr)
  {
    && ParentAtomFieldsAcc(t.ancestors).Some?
    && t.parentApp.Some?
    && var k := LastTupleHole(t.parentApp.value);
       k.Some? && IsApplicationUsedAsBinOpArgumentAt(t.parentApp.value[k.value], expression)
  }

  /** The visitor's result in terms of holes: some tuple hole with a positive verdict and no tuple hole after it. */
  lemma UsedAsBinOpArgumentMeans(t: Tuple, expression: Expr)
    ensures UsedAsBinOpArgument(t, expression) <==>
            && ParentAtomFieldsAcc(t.ancestors).Some?
            && t.parentApp.Some?
            && exists i :: && 0 <= i < |t.parentApp.value|
                           && t.parentApp.value[i].isTuple
                           && IsApplicationUsedAsBinOpArgumentAt(t.parentApp.value[i], expression)
                           && forall j :: i < j < |t.parentApp.value| ==> !t.parentApp.value[j].isTuple
  {
    if ParentAtomFieldsAcc(t.ancestors).Some? && t.parentApp.Some? {
      var holes := t.parentApp.value;
      var k := LastTupleHole(holes);
      if k.Some? {
        forall i | 0 <= i < |holes| && holes[i].isTuple && (forall j :: i < j < |holes| ==> !holes[j].isTuple)
          ensures i == k.value
        {
        }
      }
    }
  }

  /**
   * `isApplicationUsedAsBinOpArgument(tuple, …)`: walk the holes of the parent
   * application and, at each hole that is the tuple, overwrite `result` with
   * the verdict at that hole.
   */
  method ApplicationUsedAsBinOpArgument(t: Tuple, tupleExpression: Expr) returns (result: bool)
    ensures result == UsedAsBinOpArgument(t, tupleExpression)
  {
    if ParentAtomFieldsAcc(t.ancestors).None? || t.parentApp.None? {
      return false;
    }
    var holes := t.parentApp.value;
    result := false;
    var i := 0;
    while i < |holes|
      invariant 0 <= i <= |holes|
      invariant var k := LastTupleHole(holes[..i]);
                result == (k.Some? && IsApplicationUsedAsBinOpArgumentAt(holes[k.value], tupleExpression))
    {
      assert holes[..i + 1][..i] == holes[..i];
      if holes[i].isTuple {
        result := IsApplicationUsedAsBinOpArgumentAt(holes[i], tupleExpression);
      }
      i := i + 1;
    }
    assert holes[..i] == holes;
  }

  // ---------------------------------------------------------------------------
  // The inspection and its quick fix
  // ---------------------------------------------------------------------------

  /** Whether the inspection reports the tuple. */
  predicate Flagged(t: Tuple)
  {
    && t.unwrapped.Some?
    && var e := t.unwrapped.value.expr;
       NeverNeedsParens(e) || IsCommonRedundantParensPattern(t.ancestors, e) || UsedAsBinOpArgument(t, e)
  }

  /** A reported problem: the tuple with the unwrap fix attached. */
  datatype Problem = Problem(element: Tuple)

  class ProblemsHolder {
    var problems: seq<Problem>

    constructor ()
      ensures problems == []
    {
      problems := [];
    }

    method RegisterProblem(p: Problem)
      modifies this
      ensures problems == old(problems) + [p]
    {
      problems := problems + [p];
    }
  }

  /**
   * `visitTuple`: report the tuple when it unwraps and any of the three rules
   * holds; the rules are tried in order and the binop rule only when the
   * others fail.
   */
  method VisitTuple(t: Tuple, holder: ProblemsHolder)
    modifies holder
    ensures holder.problems == old(holder.problems) + (if Flagged(t) then [Problem(t)] else [])
  {
    if t.unwrapped.None? {
      return;
    }
    var expression := t.unwrapped.value.expr;
    var flag := NeverNeedsParens(expression) || IsCommonRedundantParensPattern(t.ancestors, expression);
    if !flag {
      flag := ApplicationUsedAsBinOpArgument(t, expression);
    }
    if flag {
      holder.RegisterProblem(Problem(t));
    }
  }

  /** Replace `text[start..end]` by `s`. */
  function Splice(text: string, start: nat, end: nat, s: string): (r: string)
    requires start <= end <= |text|
    ensures |r| == |text| - (end - start) + |s|
    ensures r[..start] == text[..start]
    ensures r[start..start + |s|] == s
    ensures r[start + |s|..] == text[end..]
  {
    text[..start] + s + text[end..]
  }

  /** Splicing the replaced text back over the inserted text restores the document. */
  lemma SpliceUndo(text: string, start: nat, end: nat, s: string)
    requires start <= end <= |text|
    ensures var r := Splice(text, start, end, s);
            Splice(r, start, start + |s|, text[start..end]) == text
  {
    var r := Splice(text, start, end, s);
    var back := Splice(r, start, start + |s|, text[start..end]);
    assert back == text[..start] + text[start..end] + text[end..];
    assert text == text[..start] + text[start..end] + text[end..];
  }

  /** The editor document of the file. */
  class Document {
    var text: string

    constructor (text: string)
      ensures this.text == text
    {
      this.text := text;
    }

    method ReplaceString(start: nat, end: nat, s: string)
      requires start <= end <= |text|
      modifies this
      ensures text == Splice(old(text), start, end, s)
    {
      text := text[..start] + s + text[end..];
    }
  }

  /** The quick fix attached to a reported tuple. */
  class UnwrapParensFix {
    const tuple: Tuple

    constructor (tuple: Tuple)
      ensures this.tuple == tuple
    {
      this.tuple := tuple;
    }

    /**
     * `invoke`: replace the tuple's range by the unwrapped text; nothing happens
     * when the tuple does not unwrap or the file has no document.
     */
    method Invoke(document: Document?)
      requires document != null ==> tuple.startOffset <= tuple.endOffset <= |document.text|
      modifies document
      ensures document != null && tuple.unwrapped.Some? ==>
                document.text == Splice(old(document.text), tuple.startOffset, tuple.endOffset, tuple.unwrapped.value.text)
      ensures document != null && tuple.unwrapped.None? ==> document.text == old(document.text)
    {
      if tuple.unwrapped.None? {
        return;
      }
      var unwrapped := tuple.unwrapped.value;
      if document == null {
        return;
      }
      document.ReplaceString(tuple.startOffset, tuple.endOffset, unwrapped.text);
    }
  }
}
