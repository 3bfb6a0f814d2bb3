/** What `Slim::Compiler` computes, as functions: the Temple expression each
    Slim expression compiles to, and how the compiler's `@tmp_var` counter
    advances. `Lower(e, n)` is `compile(e)` on a compiler whose counter is `n`,
    paired with the counter afterwards. */
module Lowering {
  import opened Wrappers
  import opened SlimAst
  import T = Temple
  import opened Interpolation
  import opened TmpNames

  /** `on_text(string)`; `on_tag` compiles an attribute value the same way. */
  function TextExp(s: string): T.Exp {
    if HasMarker(s) then T.Dynamic(EscapedLiteral(s)) else T.Static(s)
  }

  /** `on_control(code, content)` once `content` is compiled to `body`. */
  function ControlExp(code: string, body: T.Exp): T.Exp {
    T.Multi([T.Block(code), body])
  }

  /** `on_output(escape, code, [:multi])` with `use_html_safe` off. */
  function OutputExp(escape: bool, code: string): T.Exp {
    T.Dynamic(if escape then "Slim::Helpers.escape_html((" + code + "))" else code)
  }

  /** `on_output_block` once the temporaries are drawn and `content` is compiled. */
  function BlockCapture(escape: bool, code: string, tmp1: string, tmp2: string, body: T.Exp): T.Exp {
    T.Multi([
      T.Block(tmp1 + " = " + code),
      T.Capture(tmp2, body),
      T.Block(tmp2),
      T.Block("end"),
      OutputExp(escape, tmp1)])
  }

  /** One `[:html, :basicattr, [:static, key], value]` of `on_tag`. */
  function AttrExp(attr: (string, string)): T.Exp {
    T.BasicAttr(T.Static(attr.0), TextExp(attr.1))
  }

  /** The accumulator of `on_tag`'s `inject`: one attribute appended per step. */
  function AttrItems(attrs: seq<(string, string)>): seq<T.Exp> {
    if attrs == [] then [] else AttrItems(attrs[..|attrs| - 1]) + [AttrExp(attrs[|attrs| - 1])]
  }

  /** The `[:html, :attrs, ...]` that `on_tag` folds from its attributes. */
  function AttrsExp(attrs: seq<(string, string)>): T.Exp {
    T.HtmlAttrs(AttrItems(attrs))
  }

  // `on_directive`

  /** Ruby's `/^doctype/` matches at index `p`: `^` is the start of the string
      or of any line, and "doctype" follows. */
  predicate DoctypeMatch(t: string, p: nat) {
    p + 7 <= |t| && (p == 0 || t[p - 1] == '\n') && t[p..p + 7] == "doctype"
  }

  /** The leftmost match of `/^doctype/` at or after `from`. */
  function DoctypeFrom(t: string, from: nat): (r: Option<nat>)
    decreases |t| - from
    ensures r.Some? ==> from <= r.value && r.value + 7 <= |t|
  {
    if from + 7 > |t| then None
    else if DoctypeMatch(t, from) then Some(from)
    else DoctypeFrom(t, from + 1)
  }

  /** The search finds the leftmost match, and finds none only when there is none. */
  lemma {:induction false} DoctypeFromMeaning(t: string, from: nat)
    ensures DoctypeFrom(t, from).Some? ==>
      var p := DoctypeFrom(t, from).value;
      DoctypeMatch(t, p) && forall q :: from <= q < p ==> !DoctypeMatch(t, q)
    ensures DoctypeFrom(t, from).None? ==> forall q :: from <= q ==> !DoctypeMatch(t, q)
    decreases |t| - from
  {
    if from + 7 <= |t| && !DoctypeMatch(t, from) {
      DoctypeFromMeaning(t, from + 1);
    }
  }

  /** The characters `String#strip` removes in Ruby 3.x: NUL, tab, line feed,
      vertical tab, form feed, carriage return and space. */
  predicate IsSpace(c: char) {
    c == ' ' || c == '\0' || (9 <= c as int <= 13)
  }

  function TrimStart(s: string): (r: string)
    ensures |r| <= |s|
    decreases |s|
  {
    if s != [] && IsSpace(s[0]) then TrimStart(s[1..]) else s
  }

  /** `TrimStart` cuts the longest run of whitespace from the front. */
  lemma {:induction false} TrimStartMeaning(s: string)
    ensures var r := TrimStart(s);
            |r| <= |s| && r == s[|s| - |r|..]
            && (forall k :: 0 <= k < |s| - |r| ==> IsSpace(s[k]))
            && (r != [] ==> !IsSpace(r[0]))
    decreases |s|
  {
    if s != [] && IsSpace(s[0]) {
      TrimStartMeaning(s[1..]);
      var r := TrimStart(s[1..]);
      assert s[1..][|s[1..]| - |r|..] == s[|s| - |r|..];
      forall k | 0 <= k < |s| - |r|
        ensures IsSpace(s[k])
      {
        if 0 < k {
          assert s[k] == s[1..][k - 1];
        }
      }
    }
  }

  function TrimEnd(s: string): (r: string)
    decreases |s|
  {
    if s != [] && IsSpace(s[|s| - 1]) then TrimEnd(s[..|s| - 1]) else s
  }

  /** `TrimEnd` cuts the longest run of whitespace from the back. */
  lemma {:induction false} TrimEndMeaning(s: string)
    ensures var r := TrimEnd(s);
            |r| <= |s| && r == s[..|r|]
            && (forall k :: |r| <= k < |s| ==> IsSpace(s[k]))
            && (r != [] ==> !IsSpace(r[|r| - 1]))
    decreases |s|
  {
    if s != [] && IsSpace(s[|s| - 1]) {
      var u := s[..|s| - 1];
      TrimEndMeaning(u);
      var r := TrimEnd(u);
      assert u[..|r|] == s[..|r|];
      forall k | |r| <= k < |s|
        ensures IsSpace(s[k])
      {
        if k < |s| - 1 {
          assert s[k] == u[k];
        }
      }
    }
  }

  /** `r` is `s` with `i` characters of whitespace cut from its start and
      whitespace only cut from its end. */
  predicate TrimmedAt(s: string, r: string, i: nat) {
    i + |r| <= |s| && r == s[i..i + |r|]
    && (forall k :: 0 <= k < i ==> IsSpace(s[k]))
    && (forall k :: i + |r| <= k < |s| ==> IsSpace(s[k]))
  }

  /** `String#strip`. */
  function Strip(s: string): string {
    TrimEnd(TrimStart(s))
  }

  /** `strip` returns a slice of `s` with no whitespace at either end, and cuts
      off only whitespace. */
  lemma StripMeaning(s: string)
    ensures var r := Strip(s);
            (r != [] ==> !IsSpace(r[0]) && !IsSpace(r[|r| - 1]))
            && TrimmedAt(s, r, |s| - |TrimStart(s)|)
  {
    var u := TrimStart(s);
    var r := TrimEnd(u);
    TrimStartMeaning(s);
    TrimEndMeaning(u);
    if r != [] {
      assert r[0] == u[0];
    }
    StripSlice(s, u, r);
  }

  lemma StripSlice(s: string, u: string, r: string)
    requires |u| <= |s| && u == s[|s| - |u|..]
    requires forall k :: 0 <= k < |s| - |u| ==> IsSpace(s[k])
    requires |r| <= |u| && r == u[..|r|]
    requires forall k :: |r| <= k < |u| ==> IsSpace(u[k])
    ensures TrimmedAt(s, r, |s| - |u|)
  {
    var i := |s| - |u|;
    forall k | i + |r| <= k < |s|
      ensures IsSpace(s[k])
    {
      assert s[k] == u[k - i];
    }
    assert r == s[i..i + |r|];
  }

  /** `on_directive(type)`: `[:html, :doctype, $'.strip]` when `/^doctype/`
      matches, with `$'` the text after the match; nil otherwise. */
  function OnDirective(kind: string): Option<T.Exp> {
    match DoctypeFrom(kind, 0)
    case Some(p) => Some(T.Doctype(Strip(kind[p + 7..])))
    case None => None
  }

  // `compile`

  /** `compile(e)` on a compiler whose counter is `n`: the Temple expression and
      the counter afterwards. Output with content draws `n + 1` and `n + 2`
      (`tmp1, tmp2 = tmp_var, tmp_var`) before its content is compiled. The
      recursion over the closed `SlimExp` type stands in for the dispatch of
      the `Filter` base class, which is not part of this model; a `[:multi]`
      threads the counter through its children from left to right. */
  function Lower(e: SlimExp, n: nat): (T.Exp, nat)
    decreases e, 1
  {
    match e
    case Text(s) => (TextExp(s), n)
    case Control(code, content) =>
      var (body, m) := Lower(content, n);
      (ControlExp(code, body), m)
    case Output(escape, code, content) =>
      if EmptyExp(content) then (OutputExp(escape, code), n)
      else
        var (body, m) := Lower(content, n + 2);
        (BlockCapture(escape, code, TmpName(n + 1), TmpName(n + 2), body), m)
    case Tag(name, attrs, content) =>
      var (body, m) := Lower(content, n);
      (T.HtmlTag(name, AttrsExp(attrs), body), m)
    case Directive(kind) =>
      (match OnDirective(kind) case Some(x) => x case None => T.Nil, n)
    case Multi(es) =>
      var (xs, m) := LowerSeq(es, n);
      (T.Multi(xs), m)
  }

  function LowerSeq(es: seq<SlimExp>, n: nat): (seq<T.Exp>, nat)
    decreases es, 0
  {
    if es == [] then ([], n)
    else
      var (xs, m) := LowerSeq(es[..|es| - 1], n);
      var (x, k) := Lower(es[|es| - 1], m);
      (xs + [x], k)
  }
}
