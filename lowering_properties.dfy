/** Properties of the compiler pass, proved about its specification `Lower`. */
module LoweringProperties {
  import opened Wrappers
  import opened SlimAst
  import T = Temple
  import opened Interpolation
  import opened TmpNames
  import opened Lowering

  // The temporary counter

  /** Compiling `e` advances the counter by exactly two per output block in `e`
      (`tmp_var` is called twice per `on_output_block` and nowhere else). */
  lemma {:induction false} LowerCounter(e: SlimExp, n: nat)
    ensures Lower(e, n).1 == n + 2 * OutputBlocks(e)
    decreases e, 1
  {
    match e
    case Text(_) =>
    case Control(_, content) => LowerCounter(content, n);
    case Output(_, _, content) =>
      if !EmptyExp(content) {
        LowerCounter(content, n + 2);
      }
    case Tag(_, _, content) => LowerCounter(content, n);
    case Directive(_) =>
    case Multi(es) => LowerSeqCounter(es, n);
  }

  lemma {:induction false} LowerSeqCounter(es: seq<SlimExp>, n: nat)
    ensures LowerSeq(es, n).1 == n + 2 * OutputBlocksSeq(es)
    decreases es, 0
  {
    if es != [] {
      LowerSeqCounter(es[..|es| - 1], n);
      LowerCounter(es[|es| - 1], LowerSeq(es[..|es| - 1], n).1);
    }
  }

  // Capture targets are fresh and pairwise distinct

  /** `name` is a temporary drawn after counter value `lo` and no later than `hi`. */
  ghost predicate Drawn(name: string, lo: nat, hi: nat) {
    exists k :: lo < k <= hi && name == TmpName(k)
  }

  /** Every name in `names` is drawn in that range. */
  ghost predicate Fresh(names: seq<string>, lo: nat, hi: nat) {
    forall i :: 0 <= i < |names| ==> Drawn(names[i], lo, hi)
  }

  predicate Distinct(names: seq<string>) {
    forall i, j :: 0 <= i < j < |names| ==> names[i] != names[j]
  }

  /** The capture buffers of `x` are pairwise distinct temporaries drawn in
      the counter range from `lo` (exclusive) to `hi`. */
  ghost predicate CapturesOk(x: T.Exp, lo: nat, hi: nat) {
    lo <= hi && Fresh(T.CaptureNames(x), lo, hi) && Distinct(T.CaptureNames(x))
  }

  ghost predicate CapturesOkSeq(xs: seq<T.Exp>, lo: nat, hi: nat) {
    lo <= hi && Fresh(T.CaptureNamesSeq(xs), lo, hi) && Distinct(T.CaptureNamesSeq(xs))
  }

  /** Names drawn in two consecutive counter ranges never collide. */
  lemma FreshConcat(a: seq<string>, b: seq<string>, lo: nat, mid: nat, hi: nat)
    requires lo <= mid <= hi
    requires Fresh(a, lo, mid) && Distinct(a)
    requires Fresh(b, mid, hi) && Distinct(b)
    ensures Fresh(a + b, lo, hi) && Distinct(a + b)
  {
    var ab := a + b;
    forall i | 0 <= i < |ab|
      ensures Drawn(ab[i], lo, hi)
    {
      if i < |a| {
        assert ab[i] == a[i];
        var k :| lo < k <= mid && a[i] == TmpName(k);
        assert ab[i] == TmpName(k);
      } else {
        assert ab[i] == b[i - |a|];
        var k :| mid < k <= hi && b[i - |a|] == TmpName(k);
        assert ab[i] == TmpName(k);
      }
    }
    forall i, j | 0 <= i < j < |ab|
      ensures ab[i] != ab[j]
    {
      if j < |a| {
        assert ab[i] == a[i] && ab[j] == a[j];
      } else if |a| <= i {
        assert ab[i] == b[i - |a|] && ab[j] == b[j - |a|];
      } else {
        assert ab[i] == a[i];
        var k1 :| lo < k1 <= mid && a[i] == TmpName(k1);
        assert ab[j] == b[j - |a|];
        var k2 :| mid < k2 <= hi && b[j - |a|] == TmpName(k2);
        TmpNameDistinct(k1, k2);
        assert ab[i] == TmpName(k1) && ab[j] == TmpName(k2);
      }
    }
  }

  lemma FreshEmpty(lo: nat, hi: nat)
    ensures Fresh([], lo, hi) && Distinct([])
  {
  }

  /** Attribute lists hold no captures. */
  lemma {:induction false} AttrItemsNoCaptures(attrs: seq<(string, string)>)
    ensures T.CaptureNamesSeq(AttrItems(attrs)) == []
  {
    if attrs != [] {
      var init := attrs[..|attrs| - 1];
      AttrItemsNoCaptures(init);
      var last := AttrExp(attrs[|attrs| - 1]);
      assert T.CaptureNames(last.key) == [];
      assert T.CaptureNames(last.value) == [];
      assert T.CaptureNames(last) == [];
      CaptureNamesAppend(AttrItems(init), last);
    }
  }

  lemma CaptureNamesAppend(xs: seq<T.Exp>, x: T.Exp)
    ensures T.CaptureNamesSeq(xs + [x]) == T.CaptureNamesSeq(xs) + T.CaptureNames(x)
  {
    assert (xs + [x])[..|xs|] == xs;
  }

  /** The captures of a block-capture expansion: its own buffer, then those of the body. */
  lemma BlockCaptureNames(escape: bool, code: string, tmp1: string, tmp2: string, body: T.Exp)
    ensures T.CaptureNames(BlockCapture(escape, code, tmp1, tmp2, body)) == [tmp2] + T.CaptureNames(body)
  {
    var x := BlockCapture(escape, code, tmp1, tmp2, body);
    FiveCaptureNames(x.exps[0], x.exps[1], x.exps[2], x.exps[3], x.exps[4]);
    assert x.exps == [x.exps[0], x.exps[1], x.exps[2], x.exps[3], x.exps[4]];
  }

  /** Five expressions in a row of which only the second captures. */
  lemma FiveCaptureNames(b0: T.Exp, b1: T.Exp, b2: T.Exp, b3: T.Exp, b4: T.Exp)
    requires T.CaptureNames(b0) == [] && T.CaptureNames(b2) == []
    requires T.CaptureNames(b3) == [] && T.CaptureNames(b4) == []
    ensures T.CaptureNamesSeq([b0, b1, b2, b3, b4]) == T.CaptureNames(b1)
  {
    var s1 := [] + [b0];
    var s2 := s1 + [b1];
    var s3 := s2 + [b2];
    var s4 := s3 + [b3];
    var s5 := s4 + [b4];
    CaptureNamesQuiet([], b0);
    CaptureNamesAppend(s1, b1);
    assert T.CaptureNamesSeq(s2) == T.CaptureNames(b1);
    CaptureNamesQuiet(s2, b2);
    CaptureNamesQuiet(s3, b3);
    CaptureNamesQuiet(s4, b4);
    assert s5 == [b0, b1, b2, b3, b4];
  }

  lemma CaptureNamesQuiet(xs: seq<T.Exp>, x: T.Exp)
    requires T.CaptureNames(x) == []
    ensures T.CaptureNamesSeq(xs + [x]) == T.CaptureNamesSeq(xs)
  {
    CaptureNamesAppend(xs, x);
    assert T.CaptureNamesSeq(xs) + [] == T.CaptureNamesSeq(xs);
  }

  /** Every capture buffer in the compiled template is a temporary drawn during
      this compile, and no two capture buffers share a name: nested and
      sibling block-capture expansions never collide. */
  lemma {:induction false} CapturesFresh(e: SlimExp, n: nat)
    ensures CapturesOk(Lower(e, n).0, n, Lower(e, n).1)
    decreases e, 2
  {
    match e
    case Text(s) =>
      CapturesFreshLeaf(e, n);
    case Control(code, content) =>
      CapturesFreshControl(code, content, n);
    case Output(escape, code, content) =>
      if EmptyExp(content) {
        CapturesFreshLeaf(e, n);
      } else {
        CapturesFreshBlock(escape, code, content, n);
      }
    case Tag(name, attrs, content) =>
      CapturesFreshTag(name, attrs, content, n);
    case Directive(kind) =>
      CapturesFreshLeaf(e, n);
    case Multi(es) =>
      CapturesFreshSeq(es, n);
  }

  /** Text, a directive and output without content capture nothing. */
  lemma CapturesFreshLeaf(e: SlimExp, n: nat)
    requires e.Text? || e.Directive? || (e.Output? && EmptyExp(e.content))
    ensures CapturesOk(Lower(e, n).0, n, Lower(e, n).1)
  {
    var x: T.Exp;
    if e.Text? {
      x := TextExp(e.text);
      assert x.Static? || x.Dynamic?;
    } else if e.Directive? {
      var d := OnDirective(e.kind);
      x := if d.Some? then d.value else T.Nil;
      assert x.Doctype? || x.Nil?;
    } else {
      x := OutputExp(e.escape, e.code);
      assert x.Dynamic?;
    }
    assert Lower(e, n) == (x, n);
    assert T.CaptureNames(x) == [];
    FreshEmpty(n, n);
  }

  lemma {:induction false} CapturesFreshControl(code: string, content: SlimExp, n: nat)
    ensures CapturesOk(Lower(Control(code, content), n).0, n, Lower(Control(code, content), n).1)
    decreases content, 3
  {
    CapturesFresh(content, n);
    var (body, m) := Lower(content, n);
    ControlCaptureNames(code, body);
    assert Lower(Control(code, content), n) == (ControlExp(code, body), m);
  }

  lemma {:induction false} CapturesFreshTag(name: string, attrs: seq<(string, string)>, content: SlimExp, n: nat)
    ensures CapturesOk(Lower(Tag(name, attrs, content), n).0, n, Lower(Tag(name, attrs, content), n).1)
    decreases content, 3
  {
    CapturesFresh(content, n);
    var (body, m) := Lower(content, n);
    TagCaptureNames(name, attrs, body);
    assert Lower(Tag(name, attrs, content), n) == (T.HtmlTag(name, AttrsExp(attrs), body), m);
  }

  /** A tag captures what its body captures: attributes hold no captures. */
  lemma TagCaptureNames(name: string, attrs: seq<(string, string)>, body: T.Exp)
    ensures T.CaptureNames(T.HtmlTag(name, AttrsExp(attrs), body)) == T.CaptureNames(body)
  {
    AttrItemsNoCaptures(attrs);
    assert T.CaptureNames(AttrsExp(attrs)) == [];
    assert [] + T.CaptureNames(body) == T.CaptureNames(body);
  }

  lemma ControlCaptureNames(code: string, body: T.Exp)
    ensures T.CaptureNames(ControlExp(code, body)) == T.CaptureNames(body)
  {
    CaptureNamesAppend([], T.Block(code));
    CaptureNamesAppend([T.Block(code)], body);
    assert [T.Block(code)] == [] + [T.Block(code)];
    assert [T.Block(code), body] == [T.Block(code)] + [body];
  }

  /** The block-capture expansion's own buffer `tmp2` is drawn before the
      content is compiled, so it is older than every buffer inside. */
  lemma {:induction false} CapturesFreshBlock(escape: bool, code: string, content: SlimExp, n: nat)
    requires !EmptyExp(content)
    ensures CapturesOk(Lower(Output(escape, code, content), n).0, n, Lower(Output(escape, code, content), n).1)
    decreases content, 3
  {
    CapturesFresh(content, n + 2);
    var (body, m) := Lower(content, n + 2);
    BlockCaptureNames(escape, code, TmpName(n + 1), TmpName(n + 2), body);
    assert Drawn([TmpName(n + 2)][0], n, n + 2);
    FreshConcat([TmpName(n + 2)], T.CaptureNames(body), n, n + 2, m);
    assert Lower(Output(escape, code, content), n)
        == (BlockCapture(escape, code, TmpName(n + 1), TmpName(n + 2), body), m);
  }

  lemma {:induction false} CapturesFreshSeq(es: seq<SlimExp>, n: nat)
    ensures CapturesOkSeq(LowerSeq(es, n).0, n, LowerSeq(es, n).1)
    decreases es, 1
  {
    if es == [] {
      FreshEmpty(n, n);
    } else {
      var init := es[..|es| - 1];
      CapturesFreshSeq(init, n);
      var (xs, m) := LowerSeq(init, n);
      CapturesFresh(es[|es| - 1], m);
      var (x, k) := Lower(es[|es| - 1], m);
      assert (xs + [x])[..|xs|] == xs;
      FreshConcat(T.CaptureNamesSeq(xs), T.CaptureNames(x), n, m, k);
    }
  }

  // Output

  /** Output without content is a single `:dynamic`: the code wrapped in
      `Slim::Helpers.escape_html((...))` when escaping, the code itself when
      not; no temporary is drawn. */
  lemma OutputWithoutContent(escape: bool, code: string, n: nat)
    ensures Lower(Output(escape, code, Multi([])), n).1 == n
    ensures escape ==> Lower(Output(escape, code, Multi([])), n).0
                       == T.Dynamic("Slim::Helpers.escape_html((" + code + "))")
    ensures !escape ==> Lower(Output(escape, code, Multi([])), n).0 == T.Dynamic(code)
  {
  }

  /** Output with content becomes the five-step block capture: bind the code's
      value to `tmp1`, capture the compiled content into `tmp2`, return `tmp2`
      from the block, close it, and output `tmp1`, where `tmp1` and `tmp2` are
      the next two counter values and the content is compiled after both. */
  lemma OutputBlockShape(escape: bool, code: string, content: SlimExp, n: nat)
    requires !EmptyExp(content)
    ensures var x := Lower(Output(escape, code, content), n).0;
            var tmp1, tmp2 := TmpName(n + 1), TmpName(n + 2);
            x.Multi? && |x.exps| == 5
            && x.exps[0] == T.Block(tmp1 + " = " + code)
            && x.exps[1] == T.Capture(tmp2, Lower(content, n + 2).0)
            && x.exps[2] == T.Block(tmp2)
            && x.exps[3] == T.Block("end")
            && x.exps[4] == Lower(Output(escape, tmp1, Multi([])), n + 2).0
    ensures Lower(Output(escape, code, content), n).1 == n + 2 + 2 * OutputBlocks(content)
  {
    LowerCounter(content, n + 2);
    var (body, m) := Lower(content, n + 2);
    assert Lower(Output(escape, code, content), n)
        == (BlockCapture(escape, code, TmpName(n + 1), TmpName(n + 2), body), m);
  }

  /** The two temporaries of a block capture differ from each other and from
      every capture buffer inside the compiled content. */
  lemma OutputBlockTemporaries(content: SlimExp, n: nat)
    ensures TmpName(n + 1) != TmpName(n + 2)
    ensures TmpName(n + 1) !in T.CaptureNames(Lower(content, n + 2).0)
    ensures TmpName(n + 2) !in T.CaptureNames(Lower(content, n + 2).0)
  {
    TmpNameDistinct(n + 1, n + 2);
    CapturesFresh(content, n + 2);
    var (body, m) := Lower(content, n + 2);
    OlderNotDrawn(T.CaptureNames(body), n + 2, m, n + 1);
    OlderNotDrawn(T.CaptureNames(body), n + 2, m, n + 2);
  }

  /** A temporary drawn no later than `lo` is none of the names drawn after it. */
  lemma OlderNotDrawn(names: seq<string>, lo: nat, hi: nat, j: nat)
    requires Fresh(names, lo, hi) && j <= lo
    ensures TmpName(j) !in names
  {
    forall i | 0 <= i < |names|
      ensures names[i] != TmpName(j)
    {
      var k :| lo < k <= hi && names[i] == TmpName(k);
      TmpNameDistinct(k, j);
    }
  }

  // Text and tags

  /** Text without `#{` stays static and unchanged; text with `#{` becomes a
      `:dynamic` holding the escaped, quoted literal. */
  lemma TextLowering(s: string, n: nat)
    ensures Lower(Text(s), n).1 == n
    ensures !HasMarker(s) ==> Lower(Text(s), n).0 == T.Static(s)
    ensures HasMarker(s) ==> Lower(Text(s), n).0 == T.Dynamic(EscapedLiteral(s))
  {
  }

  /** A text with one interpolation that is not preceded by a backslash is
      compiled to a literal in which the expression's value is escaped. */
  lemma TextWithInterpolation(a: string, c: char, e: string, b: string, n: nat)
    requires !HasMarker(a + [c]) && c != '\\'
    requires '}' !in e && '\n' !in e
    ensures Lower(Text(a + [c] + "#{" + e + "}" + b), n).0
            == T.Dynamic("\"" + (a + [c] + EscapeCall(e) + Rewrite(b)) + "\"")
  {
    var s := a + [c] + "#{" + e + "}" + b;
    assert s[|a| + 1] == '#' && s[(|a| + 1) + 1] == '{';
    RewriteSpan(a, c, e, b);
  }

  /** An interpolation preceded by a backslash, such as `\#{5}`, is kept as
      written, but the text still goes to `:dynamic`: `include?("#{")` does not
      look at the backslash. */
  lemma EscapedInterpolationStaysDynamic(a: string, e: string, b: string, n: nat)
    requires !HasMarker(a)
    requires '}' !in e && '\n' !in e
    ensures Lower(Text(a + "\\#{" + e + "}" + b), n).0
            == T.Dynamic("\"" + (a + "\\#{" + e + "}" + Rewrite(b)) + "\"")
  {
    var s := a + "\\#{" + e + "}" + b;
    assert s[|a| + 1] == '#' && s[(|a| + 1) + 1] == '{';
    RewriteEscapedSpan(a, e, b);
  }

  /** An interpolation that is never closed, such as `a#{x`, is not an error:
      the text still goes to `:dynamic`, as the merely quoted, unchanged text. */
  lemma UnclosedInterpolationQuoted(s: string, n: nat)
    requires HasMarker(s) && '}' !in s
    ensures Lower(Text(s), n).0 == T.Dynamic("\"" + s + "\"")
  {
    RewriteNoClose(s);
  }

  /** `on_tag` keeps one attribute per pair, in order. */
  lemma {:induction false} AttrItemsAt(attrs: seq<(string, string)>)
    ensures |AttrItems(attrs)| == |attrs|
    ensures forall i :: 0 <= i < |attrs| ==> AttrItems(attrs)[i] == AttrExp(attrs[i])
  {
    if attrs != [] {
      AttrItemsAt(attrs[..|attrs| - 1]);
    }
  }

  /** A tag becomes `[:html, :tag, name, attrs, body]`: one `:basicattr` per
      attribute in the original order, its key static, its value `:dynamic`
      exactly when it contains `#{` (and then the escaped literal) and the
      unchanged static value otherwise; the body is the compiled content. */
  lemma TagLowering(name: string, attrs: seq<(string, string)>, content: SlimExp, n: nat)
    ensures var x := Lower(Tag(name, attrs, content), n).0;
            x.HtmlTag? && x.name == name && x.attrs.HtmlAttrs?
            && |x.attrs.items| == |attrs|
            && x.body == Lower(content, n).0
    ensures Lower(Tag(name, attrs, content), n).1 == Lower(content, n).1
    ensures forall i :: 0 <= i < |attrs| ==>
              var item := Lower(Tag(name, attrs, content), n).0.attrs.items[i];
              item.BasicAttr? && item.key == T.Static(attrs[i].0)
              && (item.value.Dynamic? <==> HasMarker(attrs[i].1))
              && (!HasMarker(attrs[i].1) ==> item.value == T.Static(attrs[i].1))
              && (HasMarker(attrs[i].1) ==> item.value == T.Dynamic(EscapedLiteral(attrs[i].1)))
  {
    AttrItemsAt(attrs);
  }

  // Directives

  /** A directive type beginning with `doctype` gives the stripped rest. */
  lemma DoctypeDirective(rest: string)
    ensures OnDirective("doctype" + rest) == Some(T.Doctype(Strip(rest)))
  {
    var t := "doctype" + rest;
    assert DoctypeMatch(t, 0) by {
      assert t[0..7] == "doctype";
    }
    assert t[7..] == rest;
  }

  /** Any other directive type (no line of it begins with `doctype`) gives nil. */
  lemma OtherDirective(kind: string)
    ensures OnDirective(kind).None? <==> forall p :: !DoctypeMatch(kind, p)
  {
    DoctypeFromMeaning(kind, 0);
  }

  // Static templates

  /** A template with no code, no output and no `#{` in any text or
      attribute value. */
  predicate PlainTree(e: SlimExp)
    decreases e, 1
  {
    match e
    case Text(s) => !HasMarker(s)
    case Control(_, _) => false
    case Output(_, _, _) => false
    case Tag(_, attrs, content) =>
      (forall i :: 0 <= i < |attrs| ==> !HasMarker(attrs[i].1)) && PlainTree(content)
    case Directive(_) => true
    case Multi(es) => PlainTreeSeq(es)
  }

  predicate PlainTreeSeq(es: seq<SlimExp>)
    decreases es, 0
  {
    es == [] || (PlainTreeSeq(es[..|es| - 1]) && PlainTree(es[|es| - 1]))
  }

  lemma {:induction false} AttrItemsStatic(attrs: seq<(string, string)>)
    ensures T.IsStaticSeq(AttrItems(attrs)) <==> forall i :: 0 <= i < |attrs| ==> !HasMarker(attrs[i].1)
  {
    if attrs != [] {
      var init := attrs[..|attrs| - 1];
      AttrItemsStatic(init);
      var xs := AttrItems(attrs);
      assert xs[..|xs| - 1] == AttrItems(init);
      var last := attrs[|attrs| - 1];
      assert T.IsStatic(AttrExp(last)) <==> !HasMarker(last.1);
      assert (forall i :: 0 <= i < |attrs| ==> !HasMarker(attrs[i].1))
         <==> (forall i :: 0 <= i < |init| ==> !HasMarker(init[i].1)) && !HasMarker(last.1);
    }
  }

  /** The compiled template outputs only literal markup (no `:dynamic`, no
      `:block`, no `:capture`) exactly when the template is plain. */
  lemma {:induction false} StaticIffPlain(e: SlimExp, n: nat)
    ensures T.IsStatic(Lower(e, n).0) <==> PlainTree(e)
    decreases e, 1
  {
    match e
    case Text(_) =>
    case Control(code, content) =>
      ControlNotStatic(code, Lower(content, n).0);
    case Output(escape, code, content) =>
      if !EmptyExp(content) {
        var (body, m) := Lower(content, n + 2);
        BlockCaptureNotStatic(escape, code, TmpName(n + 1), TmpName(n + 2), body);
      }
    case Tag(name, attrs, content) =>
      StaticIffPlain(content, n);
      TagStatic(name, attrs, Lower(content, n).0);
    case Directive(_) =>
    case Multi(es) =>
      StaticIffPlainSeq(es, n);
  }

  /** A tag is static exactly when no attribute value holds `#{` and its body is static. */
  lemma TagStatic(name: string, attrs: seq<(string, string)>, body: T.Exp)
    ensures T.IsStatic(T.HtmlTag(name, AttrsExp(attrs), body))
        <==> (forall i :: 0 <= i < |attrs| ==> !HasMarker(attrs[i].1)) && T.IsStatic(body)
  {
    AttrItemsStatic(attrs);
  }

  /** A control line puts a `:block` first, so its compiled form is never static. */
  lemma ControlNotStatic(code: string, body: T.Exp)
    ensures !T.IsStatic(ControlExp(code, body))
  {
    var x := ControlExp(code, body);
    assert x.exps[..1][..0] == [];
    assert !T.IsStaticSeq(x.exps[..1]);
    assert x.exps[..|x.exps| - 1] == x.exps[..1];
  }

  /** A block capture ends in a `:dynamic`, so it is never static. */
  lemma BlockCaptureNotStatic(escape: bool, code: string, tmp1: string, tmp2: string, body: T.Exp)
    ensures !T.IsStatic(BlockCapture(escape, code, tmp1, tmp2, body))
  {
    var x := BlockCapture(escape, code, tmp1, tmp2, body);
    assert x.exps[4].Dynamic?;
    assert !T.IsStaticSeq(x.exps);
  }

  lemma {:induction false} StaticIffPlainSeq(es: seq<SlimExp>, n: nat)
    ensures T.IsStaticSeq(LowerSeq(es, n).0) <==> PlainTreeSeq(es)
    decreases es, 0
  {
    if es != [] {
      var init := es[..|es| - 1];
      StaticIffPlainSeq(init, n);
      var (xs, m) := LowerSeq(init, n);
      StaticIffPlain(es[|es| - 1], m);
      var (x, k) := Lower(es[|es| - 1], m);
      assert (xs + [x])[..|xs|] == xs;
    }
  }
}
