/** The record-selection condition compiler `_parse_condition`
    (smtk/gm_database.py:941-1022), over the token sequence Python's
    tokenizer produces for the condition, without the closing NEWLINE and
    ENDMARKER tokens. It checks that `&`, `|` and `~` are used only with
    parenthesised operands and that `nan` is compared only by `==` or
    `!=`; then it re-emits string literals as byte literals and rewrites
    `x == nan` to `x != x` and `x != nan` to `x == x`. Re-joining the
    tokens into text (`untokenize`) is not modelled. */
module Condition {
  import opened Wrappers
  import opened Numbers

  datatype TokenKind = Name | Op | Str | Number | Other

  /** A token's type and text. */
  datatype Token = Token(kind: TokenKind, text: string)

  datatype ConditionError =
    | OperatorNotAfterParenthesis(index: nat)
    | OperandNotParenthesised(index: nat)
    | NanOperator(index: nat)
    | TrailingOperator

  /** The text of the token before index `i`, or `""` at the start. */
  function TextBefore(toks: seq<Token>, i: nat): string
    requires i <= |toks|
  {
    if i == 0 then "" else toks[i - 1].text
  }

  predicate IsAndOr(text: string) {
    text == "&" || text == "|"
  }

  /** `&`, `|` or `~`. */
  predicate IsLogical(text: string) {
    text == "&" || text == "|" || text == "~"
  }

  /** The spellings of not-a-number the compiler recognises. */
  predicate IsNan(text: string) {
    text == "nan" || text == "NAN" || text == "NaN"
  }

  predicate IsEquality(text: string) {
    text == "==" || text == "!="
  }

  /** `==` and `!=` exchanged. */
  function Swap(op: string): (r: string)
    requires IsEquality(op)
    ensures IsEquality(r) && r != op
  {
    if op == "==" then "!=" else "=="
  }

  /** A name, an operator, then `nan`: a comparison with NaN at `i`. */
  predicate NanSite(toks: seq<Token>, i: nat) {
    && 1 < i < |toks|
    && toks[i].kind == Name && IsNan(toks[i].text)
    && toks[i - 2].kind == Name && toks[i - 1].kind == Op
  }

  /** A string literal without the `b` prefix, re-emitted as bytes. */
  predicate RendersString(t: Token) {
    t.kind == Str && !(|t.text| > 0 && t.text[0] == 'b')
  }

  /** The checks made when the token at `i` is read, in the order made. */
  function TokenError(toks: seq<Token>, i: nat): (r: Option<ConditionError>)
    requires i < |toks|
    ensures r.None? <==>
              && (IsAndOr(toks[i].text) ==> TextBefore(toks, i) == ")")
              && (IsLogical(TextBefore(toks, i)) ==> toks[i].text == "~" || toks[i].text == "(")
              && (NanSite(toks, i) ==> IsEquality(toks[i - 1].text))
  {
    if IsAndOr(toks[i].text) && TextBefore(toks, i) != ")" then Some(OperatorNotAfterParenthesis(i))
    else if IsLogical(TextBefore(toks, i)) && toks[i].text != "~" && toks[i].text != "(" then
      Some(OperandNotParenthesised(i))
    else if NanSite(toks, i) && !IsEquality(toks[i - 1].text) then Some(NanOperator(i))
    else None
  }

  /** The first error from index `i` on, or a trailing logical operator. */
  function ValidateFrom(toks: seq<Token>, i: nat): Option<ConditionError>
    requires i <= |toks|
    decreases |toks| - i
  {
    if i == |toks| then
      if IsLogical(TextBefore(toks, |toks|)) then Some(TrailingOperator) else None
    else match TokenError(toks, i)
      case Some(e) => Some(e)
      case None => ValidateFrom(toks, i + 1)
  }

  /** The first error `_parse_condition` raises for `toks`, if any. */
  function Validate(toks: seq<Token>): Option<ConditionError> {
    ValidateFrom(toks, 0)
  }

  /** `&` and `|` follow `)`; after `&`, `|` and `~` comes `~` or `(`; and
      the condition does not end in `&`, `|` or `~`. */
  predicate LogicalOperatorsOk(toks: seq<Token>) {
    && (forall i :: 0 <= i < |toks| && IsAndOr(toks[i].text) ==> 0 < i && toks[i - 1].text == ")")
    && (forall i :: 0 < i < |toks| && IsLogical(toks[i - 1].text) ==> toks[i].text == "~" || toks[i].text == "(")
    && (|toks| > 0 ==> !IsLogical(toks[|toks| - 1].text))
  }

  /** NaN is compared only with `==` or `!=`. */
  predicate NanComparisonsOk(toks: seq<Token>) {
    forall i :: 0 <= i < |toks| && NanSite(toks, i) ==> IsEquality(toks[i - 1].text)
  }

  lemma {:induction false} ValidateFromNone(toks: seq<Token>, i: nat)
    requires i <= |toks|
    ensures ValidateFrom(toks, i).None? <==>
              (forall j :: i <= j < |toks| ==> TokenError(toks, j).None?) && !IsLogical(TextBefore(toks, |toks|))
    decreases |toks| - i
  {
    if i < |toks| {
      ValidateFromNone(toks, i + 1);
    }
  }

  /** The compiler rejects a condition exactly when it breaks the
      logical-operator rules or compares NaN with another operator. */
  lemma ValidateSpec(toks: seq<Token>)
    ensures Validate(toks).None? <==> LogicalOperatorsOk(toks) && NanComparisonsOk(toks)
  {
    ValidateFromNone(toks, 0);
    if LogicalOperatorsOk(toks) && NanComparisonsOk(toks) {
      forall j | 0 <= j < |toks|
        ensures TokenError(toks, j).None?
      {
        if 0 < j {
          assert TextBefore(toks, j) == toks[j - 1].text;
        }
      }
    }
    if Validate(toks).None? {
      forall i | 0 <= i < |toks| && IsAndOr(toks[i].text)
        ensures 0 < i && toks[i - 1].text == ")"
      {
        assert TokenError(toks, i).None?;
      }
      forall i | 0 < i < |toks| && IsLogical(toks[i - 1].text)
        ensures toks[i].text == "~" || toks[i].text == "("
      {
        assert TokenError(toks, i).None?;
      }
      forall i | 0 <= i < |toks| && NanSite(toks, i)
        ensures IsEquality(toks[i - 1].text)
      {
        assert TokenError(toks, i).None?;
      }
    }
  }

  /** What the compiler leaves at position `j` of its output `out`, once
      the NaN rewrites before index `upto` are done. */
  predicate Compiled(toks: seq<Token>, render: string -> string, out: seq<Token>, j: nat, upto: nat)
    requires |out| == |toks| && j < |toks|
  {
    && out[j].kind == toks[j].kind
    && if NanSite(toks, j) then out[j].text == out[j - 2].text
       else if NanSite(toks, j + 1) && j + 1 < upto then IsEquality(toks[j].text) && out[j].text == Swap(toks[j].text)
       else if RendersString(toks[j]) then out[j].text == render(toks[j].text)
       else out[j].text == toks[j].text
  }

  /** The token loop's checks, stopping at the first error, then the check
      for a trailing logical operator. */
  method CheckTokens(toks: seq<Token>) returns (e: Option<ConditionError>)
    ensures e == Validate(toks)
  {
    var i := 0;
    while i < |toks|
      invariant 0 <= i <= |toks|
      invariant ValidateFrom(toks, 0) == ValidateFrom(toks, i)
    {
      e := TokenError(toks, i);
      if e.Some? {
        return;
      }
      i := i + 1;
    }
    if IsLogical(TextBefore(toks, |toks|)) {
      return Some(TrailingOperator);
    }
    return None;
  }

  /** Every string literal without the `b` prefix re-emitted, everything
      else as it was. */
  predicate StringsRendered(toks: seq<Token>, render: string -> string, out: seq<Token>) {
    && |out| == |toks|
    && forall j :: 0 <= j < |toks| ==>
         out[j].kind == toks[j].kind &&
         out[j].text == if RendersString(toks[j]) then render(toks[j].text) else toks[j].text
  }

  /** The loop over the recorded string positions. */
  method RenderStrings(toks: seq<Token>, render: string -> string) returns (out: seq<Token>)
    ensures StringsRendered(toks, render, out)
  {
    out := toks;
    var i := 0;
    while i < |toks|
      invariant 0 <= i <= |toks| && |out| == |toks|
      invariant forall j :: 0 <= j < |toks| ==> out[j].kind == toks[j].kind
      invariant forall j :: 0 <= j < |toks| ==>
                  out[j].text == if j < i && RendersString(toks[j]) then render(toks[j].text) else toks[j].text
    {
      if RendersString(toks[i]) {
        out := out[i := Token(Str, render(toks[i].text))];
      }
      i := i + 1;
    }
  }

  /** The loop over the recorded NaN positions, in order: the operator is
      swapped and `nan` replaced by the name two tokens back, as that name
      reads after the earlier rewrites. */
  method RewriteNans(toks: seq<Token>, render: string -> string, strings: seq<Token>) returns (out: seq<Token>)
    requires Validate(toks).None? && StringsRendered(toks, render, strings)
    ensures |out| == |toks|
    ensures forall j :: 0 <= j < |toks| ==> Compiled(toks, render, out, j, |toks|)
  {
    out := strings;
    var i := 0;
    while i < |toks|
      invariant 0 <= i <= |toks| && |out| == |toks|
      invariant forall j :: 0 <= j < i ==> Compiled(toks, render, out, j, i)
      invariant forall j :: i <= j < |toks| ==> out[j] == strings[j]
    {
      ghost var before := out;
      if NanSite(toks, i) {
        ValidateNanSite(toks, i);
        assert Compiled(toks, render, out, i - 1, i);
        out := out[i - 1 := Token(Op, Swap(out[i - 1].text))][i := Token(Name, out[i - 2].text)];
      }
      ghost var next := i + 1;
      forall j | 0 <= j < next
        ensures Compiled(toks, render, out, j, next)
      {
        if j < i - 1 || (j == i - 1 && !NanSite(toks, i)) {
          assert Compiled(toks, render, before, j, i);
        }
      }
      i := i + 1;
    }
  }

  /** `_parse_condition(condition)` on the condition's tokens; `render`
      stands for re-emitting a quoted literal as a byte literal (`shlex`
      unquoting, UTF-8 encoding and `str` of the bytes). */
  method CompileCondition(toks: seq<Token>, render: string -> string) returns (r: Result<seq<Token>, ConditionError>)
    ensures r.Failure? <==> Validate(toks).Some?
    ensures r.Failure? ==> r.error == Validate(toks).value
    ensures r.Success? ==> |r.value| == |toks|
    ensures r.Success? ==> forall j :: 0 <= j < |toks| ==> Compiled(toks, render, r.value, j, |toks|)
  {
    var e := CheckTokens(toks);
    if e.Some? {
      return Failure(e.value);
    }
    var strings := RenderStrings(toks, render);
    var out := RewriteNans(toks, render, strings);
    return Success(out);
  }

  /** At a NaN comparison of an accepted condition, the operator is `==`
      or `!=`. */
  lemma ValidateNanSite(toks: seq<Token>, i: nat)
    requires NanSite(toks, i) && Validate(toks).None?
    ensures IsEquality(toks[i - 1].text)
  {
    ValidateSpec(toks);
  }

  /** IEEE equality as numexpr evaluates it: NaN equals nothing, itself
      included. */
  predicate FloatEquals(a: Float, b: Float) {
    !a.NaN? && !b.NaN? && a == b
  }

  /** `a op b` for `op` one of `==` and `!=`. */
  predicate Compare(a: Float, op: string, b: Float)
    requires IsEquality(op)
  {
    if op == "==" then FloatEquals(a, b) else !FloatEquals(a, b)
  }

  /** Why the rewrite is needed and what it achieves: `x == nan` as
      written holds for no `x`, while the rewritten `x != x` holds exactly
      when `x` is NaN; likewise `x != nan` holds for every `x`, while
      `x == x` holds exactly when `x` is not NaN. */
  lemma NanRewriteMeaning(x: Float, op: string)
    requires IsEquality(op)
    ensures Compare(x, op, NaN) == (op == "!=")
    ensures Compare(x, Swap(op), x) == (if op == "==" then x.NaN? else !x.NaN?)
  {
  }

  /** `(pga <= 0.5) & (pgv > 9.5)` is accepted. */
  lemma ParenthesisedConjunctionAccepted()
    ensures Validate([Token(Op, "("), Token(Name, "pga"), Token(Op, "<="), Token(Number, "0.5"), Token(Op, ")"),
                      Token(Op, "&"),
                      Token(Op, "("), Token(Name, "pgv"), Token(Op, ">"), Token(Number, "9.5"), Token(Op, ")")]).None?
  {
  }

  /** `pga <= 0.5 & pgv > 9.5` is rejected at the `&`, and `pga > nan` at
      the `nan`. */
  lemma RejectedConditions()
    ensures Validate([Token(Name, "pga"), Token(Op, "<="), Token(Number, "0.5"), Token(Op, "&"),
                      Token(Name, "pgv"), Token(Op, ">"), Token(Number, "9.5")]) == Some(OperatorNotAfterParenthesis(3))
    ensures Validate([Token(Name, "pga"), Token(Op, ">"), Token(Name, "nan")]) == Some(NanOperator(2))
  {
  }
}
