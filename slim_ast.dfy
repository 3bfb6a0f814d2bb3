/** Slim expressions: the input of the compiler pass, as the Slim parser produces
    them (`[:slim, :text, s]`, `[:slim, :tag, name, attrs, content]`, ... and the
    `[:multi, ...]` that holds a node's content). */
module SlimAst {

  datatype SlimExp =
    | Text(text: string)                                             // [:slim, :text, text]
    | Control(code: string, content: SlimExp)                        // [:slim, :control, code, content]
    | Output(escape: bool, code: string, content: SlimExp)           // [:slim, :output, escape, code, content]
    | Tag(name: string, attrs: seq<(string, string)>, content: SlimExp) // [:slim, :tag, name, attrs, content]
    | Directive(kind: string)                                        // [:slim, :directive, type]
    | Multi(exps: seq<SlimExp>)                                      // [:multi, *exps]

  /** `empty_exp?`: the content is an empty `[:multi]`. */
  predicate EmptyExp(e: SlimExp) {
    e == Multi([])
  }

  /** The number of output nodes in `e` that go through the block-capture
      expansion (an output node whose content is not empty). */
  function OutputBlocks(e: SlimExp): nat
    decreases e, 1
  {
    match e
    case Text(_) => 0
    case Control(_, content) => OutputBlocks(content)
    case Output(_, _, content) => if EmptyExp(content) then 0 else 1 + OutputBlocks(content)
    case Tag(_, _, content) => OutputBlocks(content)
    case Directive(_) => 0
    case Multi(exps) => OutputBlocksSeq(exps)
  }

  function OutputBlocksSeq(es: seq<SlimExp>): nat
    decreases es, 0
  {
    if es == [] then 0
    else OutputBlocksSeq(es[..|es| - 1]) + OutputBlocks(es[|es| - 1])
  }
}
