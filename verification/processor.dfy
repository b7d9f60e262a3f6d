/** `StringProcessor`: a string-to-string pipeline built up by composition.
    `compose` wraps the current function and the new one in a fresh closure
    (`lambda x: f(current(x))`); `Pipeline` records that nesting as data. */
module Processors {
  import opened Wrappers
  import opened StringFunctions

  /** The value held in a processor's `f` field: a single `StringFunction`,
      or the closure `compose` builds from the previous `f` and the new one. */
  datatype Pipeline =
    | Single(fn: StringFunction)
    | Then(current: Pipeline, next: Pipeline)

  /** Calling the stored `f` on a builtin `str`. */
  function Run(p: Pipeline, x: string): string {
    match p
    case Single(fn) => HandleBuiltinStr(fn, x)
    case Then(current, next) => Run(next, Run(current, x))
  }

  /** What `compose` accepts: a `StringFunction` or another processor. */
  datatype Composable = Fn(fn: StringFunction) | Proc(proc: StringProcessor) {
    /** The function `compose` takes from it (`other` itself or `other.f`). */
    function Pipe(): Pipeline {
      match this
      case Fn(fn) => Single(fn)
      case Proc(proc) => proc.f
    }

    function Apply(x: string): string {
      Run(Pipe(), x)
    }
  }

  datatype StringProcessor = StringProcessor(f: Pipeline) {

    /** `__call__` on a builtin `str`. */
    function Apply(x: string): string {
      Run(f, x)
    }

    /** `compose`: a new processor that runs this one first, then `other`.
        The receiver is a value and is left as it was. */
    function Compose(other: Composable): (r: StringProcessor)
      ensures forall x :: r.Apply(x) == other.Apply(Apply(x))
    {
      StringProcessor(Then(f, other.Pipe()))
    }

    /** `lower`: lower-case whatever this processor produces. */
    function Lower(): (r: StringProcessor)
      ensures forall x :: r.Apply(x) == Lowercased(Apply(x))
    {
      Compose(Fn(ToLowerCase))
    }

    /** `rstrip`: strip trailing whitespace from what this processor produces. */
    function Rstrip(): (r: StringProcessor)
      ensures forall x :: r.Apply(x) == RightStripped(Apply(x))
    {
      Compose(Fn(RightStrip))
    }
  }

  /** `StringProcessor(f)`; with no function given, `StringIdentity()`. */
  function NewProcessor(f: Option<StringFunction>): (r: StringProcessor)
    ensures f.None? ==> forall x :: r.Apply(x) == x
    ensures f.Some? ==> forall x :: r.Apply(x) == HandleBuiltinStr(f.value, x)
  {
    StringProcessor(Single(if f.Some? then f.value else StringIdentity))
  }

  /** `StringProcessor().compose(fs[0]).compose(fs[1])...`. */
  function Chain(fs: seq<StringFunction>): StringProcessor {
    if fs == [] then NewProcessor(None)
    else Chain(fs[..|fs| - 1]).Compose(Fn(fs[|fs| - 1]))
  }

  /** Reference semantics of a pipeline: apply the functions to the input in
      the order they were registered, first one first. */
  function LeftToRight(fs: seq<StringFunction>, x: string): string {
    if fs == [] then x else LeftToRight(fs[1..], HandleBuiltinStr(fs[0], x))
  }

  lemma {:induction false} LeftToRightSnoc(fs: seq<StringFunction>, g: StringFunction, x: string)
    ensures LeftToRight(fs + [g], x) == HandleBuiltinStr(g, LeftToRight(fs, x))
    decreases |fs|
  {
    if fs == [] {
      assert ([] + [g])[1..] == [];
    } else {
      assert (fs + [g])[1..] == fs[1..] + [g];
      LeftToRightSnoc(fs[1..], g, HandleBuiltinStr(fs[0], x));
    }
  }

  /** A processor built by successive `compose` calls applies its functions
      left to right. */
  lemma {:induction false} ChainRunsLeftToRight(fs: seq<StringFunction>, x: string)
    ensures Chain(fs).Apply(x) == LeftToRight(fs, x)
    decreases |fs|
  {
    if fs != [] {
      var init, g := fs[..|fs| - 1], fs[|fs| - 1];
      ChainRunsLeftToRight(init, x);
      LeftToRightSnoc(init, g, x);
      assert init + [g] == fs;
    }
  }

  /** Composition is associative: only the order of the steps matters, not
      how the closures are nested. */
  lemma ComposeAssociative(p: StringProcessor, q: StringProcessor, g: Composable, x: string)
    ensures p.Compose(Proc(q)).Compose(g).Apply(x) == p.Compose(Proc(q.Compose(g))).Apply(x)
  {
  }

  lemma LowerThenRstripExample()
    ensures NewProcessor(None).Lower().Rstrip().Apply("HELLO  ") == "hello"
    ensures NewProcessor(None).Lower().Rstrip().Apply(" HELLO  ") == " hello"
  {
    assert Lowercased("HELLO  ") == "hello  ";
    RightStrippedUnique("hello  ", "hello");
    assert Lowercased(" HELLO  ") == " hello  ";
    RightStrippedUnique(" hello  ", " hello");
  }
}
