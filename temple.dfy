/** Temple expressions: the output of the Slim compiler pass, one constructor per
    Temple/HTML expression kind that lib/slim/compiler.rb builds. */
module Temple {

  datatype Exp =
    | Static(text: string)                         // [:static, text]
    | Dynamic(code: string)                        // [:dynamic, code]
    | Block(code: string)                          // [:block, code]
    | Capture(name: string, body: Exp)             // [:capture, name, body]
    | Multi(exps: seq<Exp>)                        // [:multi, *exps]
    | HtmlTag(name: string, attrs: Exp, body: Exp) // [:html, :tag, name, attrs, body]
    | HtmlAttrs(items: seq<Exp>)                   // [:html, :attrs, *items]
    | BasicAttr(key: Exp, value: Exp)              // [:html, :basicattr, key, value]
    | Doctype(arg: string)                         // [:html, :doctype, arg]
    | Nil                                          // the nil that on_directive leaves in a :multi

  /** The capture targets of `x`, in left-to-right (pre-order) order. */
  function CaptureNames(x: Exp): seq<string>
    decreases x, 1
  {
    match x
    case Capture(name, body) => [name] + CaptureNames(body)
    case Multi(exps) => CaptureNamesSeq(exps)
    case HtmlTag(_, attrs, body) => CaptureNames(attrs) + CaptureNames(body)
    case HtmlAttrs(items) => CaptureNamesSeq(items)
    case BasicAttr(key, value) => CaptureNames(key) + CaptureNames(value)
    case _ => []
  }

  function CaptureNamesSeq(xs: seq<Exp>): seq<string>
    decreases xs, 0
  {
    if xs == [] then []
    else CaptureNamesSeq(xs[..|xs| - 1]) + CaptureNames(xs[|xs| - 1])
  }

  /** `x` outputs only literal markup: no dynamic code, no code blocks, no captures. */
  predicate IsStatic(x: Exp)
    decreases x, 1
  {
    match x
    case Static(_) => true
    case Doctype(_) => true
    case Nil => true
    case Multi(exps) => IsStaticSeq(exps)
    case HtmlTag(_, attrs, body) => IsStatic(attrs) && IsStatic(body)
    case HtmlAttrs(items) => IsStaticSeq(items)
    case BasicAttr(key, value) => IsStatic(key) && IsStatic(value)
    case _ => false
  }

  predicate IsStaticSeq(xs: seq<Exp>)
    decreases xs, 0
  {
    xs == [] || (IsStaticSeq(xs[..|xs| - 1]) && IsStatic(xs[|xs| - 1]))
  }
}
