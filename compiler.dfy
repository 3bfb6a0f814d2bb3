/** `Slim::Compiler`: the filter that turns Slim expressions into Temple
    expressions. Its one piece of state is the `@tmp_var` counter behind
    `tmp_var`; every handler is proved to compute what `Lower` specifies and to
    leave the counter where `Lower` says. */
module SlimCompiler {
  import opened Wrappers
  import opened SlimAst
  import T = Temple
  import opened Interpolation
  import opened TmpNames
  import opened Lowering
  import LoweringProperties

  class Compiler {
    /** `@tmp_var`: how many temporaries have been drawn (an unset counter reads as 0). */
    var tmp: nat

    constructor ()
      ensures tmp == 0
    {
      tmp := 0;
    }

    /** `tmp_var`: advance the counter and name the new value. */
    method TmpVar() returns (name: string)
      modifies this
      ensures tmp == old(tmp) + 1 && name == TmpName(tmp)
    {
      tmp := tmp + 1;
      name := "_slimtmp" + Decimal(tmp);
    }

    /** `on_text(string)` */
    method OnText(s: string) returns (r: T.Exp)
      ensures r == TextExp(s)
      ensures HasMarker(s) ==> r.Dynamic? && r.code == EscapedLiteral(s)
      ensures !HasMarker(s) ==> r == T.Static(s)
    {
      if HasMarker(s) {
        var lit := EscapeInterpolation(s);
        r := T.Dynamic(lit);
      } else {
        r := T.Static(s);
      }
    }

    /** `on_control(code, content)` */
    method OnControl(code: string, content: SlimExp) returns (r: T.Exp)
      modifies this
      ensures (r, tmp) == Lower(Control(code, content), old(tmp))
      decreases 1, content, 2
    {
      var body := Compile(content);
      r := T.Multi([T.Block(code), body]);
    }

    /** `on_output(escape, code, content)` with `use_html_safe` off. */
    method OnOutput(escape: bool, code: string, content: SlimExp) returns (r: T.Exp)
      modifies this
      ensures (r, tmp) == Lower(Output(escape, code, content), old(tmp))
      decreases if EmptyExp(content) then 0 else 1, content, 3
    {
      if content == Multi([]) {
        r := T.Dynamic(if escape then "Slim::Helpers.escape_html((" + code + "))" else code);
      } else {
        r := OnOutputBlock(escape, code, content);
      }
    }

    /** `on_output_block(escape, code, content)`: draw two temporaries, then
        compile the content into the capture. */
    method OnOutputBlock(escape: bool, code: string, content: SlimExp) returns (r: T.Exp)
      modifies this
      ensures var (body, m) := Lower(content, old(tmp) + 2);
              r == BlockCapture(escape, code, TmpName(old(tmp) + 1), TmpName(old(tmp) + 2), body)
              && tmp == m
      decreases 1, content, 2
    {
      var tmp1 := TmpVar();
      var tmp2 := TmpVar();
      var body := Compile(content);
      var out := OnOutput(escape, tmp1, Multi([]));
      r := T.Multi([
        T.Block(tmp1 + " = " + code),
        T.Capture(tmp2, body),
        T.Block(tmp2),
        T.Block("end"),
        out]);
    }

    /** `on_directive(type)`: the doctype for a type with a line starting with
        `doctype`, nil for any other. */
    method OnDirective(kind: string) returns (r: Option<T.Exp>)
      ensures r == Lowering.OnDirective(kind)
      ensures r.None? <==> forall p :: !DoctypeMatch(kind, p)
    {
      var found := DoctypeFrom(kind, 0);
      if found.Some? {
        r := Some(T.Doctype(Strip(kind[found.value + 7..])));
      } else {
        r := None;
      }
      LoweringProperties.OtherDirective(kind);
    }

    /** The `inject` of `on_tag`: one `[:html, :basicattr, ...]` per pair, in order. */
    method OnTagAttrs(attrs: seq<(string, string)>) returns (r: T.Exp)
      ensures r == AttrsExp(attrs)
    {
      var items := [];
      var i := 0;
      while i < |attrs|
        invariant 0 <= i <= |attrs|
        invariant items == AttrItems(attrs[..i])
      {
        var (key, text) := attrs[i];
        var value := OnText(text);
        assert attrs[..i + 1][..i] == attrs[..i];
        items := items + [T.BasicAttr(T.Static(key), value)];
        i := i + 1;
      }
      assert attrs[..|attrs|] == attrs;
      r := T.HtmlAttrs(items);
    }

    /** `on_tag(name, attrs, content)` */
    method OnTag(name: string, attrs: seq<(string, string)>, content: SlimExp) returns (r: T.Exp)
      modifies this
      ensures (r, tmp) == Lower(Tag(name, attrs, content), old(tmp))
      decreases 1, content, 2
    {
      var a := OnTagAttrs(attrs);
      var body := Compile(content);
      r := T.HtmlTag(name, a, body);
    }

    /** Structural recursion over `SlimExp` standing in for the `Filter`
        dispatch that calls the handlers (the base class is not part of this
        model); a `[:multi]` goes to `CompileMulti`. */
    method Compile(e: SlimExp) returns (r: T.Exp)
      modifies this
      ensures (r, tmp) == Lower(e, old(tmp))
      decreases 1, e, 1
    {
      match e
      case Text(s) =>
        r := OnText(s);
      case Control(code, content) =>
        r := OnControl(code, content);
      case Output(escape, code, content) =>
        r := OnOutput(escape, code, content);
      case Tag(name, attrs, content) =>
        r := OnTag(name, attrs, content);
      case Directive(kind) =>
        var d := OnDirective(kind);
        r := if d.Some? then d.value else T.Nil;
      case Multi(es) =>
        r := CompileMulti(es);
    }

    /** The children of a `[:multi]`, compiled in turn from left to right; this
        stands in for the `Filter` base class's handling of `[:multi]`. */
    method CompileMulti(es: seq<SlimExp>) returns (r: T.Exp)
      modifies this
      ensures (r, tmp) == Lower(Multi(es), old(tmp))
      decreases 1, Multi(es), 0
    {
      var xs := [];
      var i := 0;
      while i < |es|
        invariant 0 <= i <= |es|
        invariant (xs, tmp) == LowerSeq(es[..i], old(tmp))
      {
        assert es[..i + 1][..i] == es[..i];
        var x := Compile(es[i]);
        xs := xs + [x];
        i := i + 1;
      }
      assert es[..|es|] == es;
      r := T.Multi(xs);
    }
  }
}
