/** The built-in string transforms of `aliases` (identity, lower-casing and
    right-stripping) on Python `str` values, and the type dispatch that
    `StringFunction.__call__` performs before running one of them. */
module StringFunctions {

  /** ASCII upper-case letter. */
  predicate IsUpper(c: char) {
    'A' <= c <= 'Z'
  }

  function LowerChar(c: char): char {
    if IsUpper(c) then (c as int + 32) as char else c
  }

  /** `str.lower()`, restricted to the ASCII letters. */
  function Lowercased(s: string): (r: string)
    ensures |r| == |s|
    ensures forall i :: 0 <= i < |r| ==> !IsUpper(r[i])
    ensures forall i :: 0 <= i < |s| && !IsUpper(s[i]) ==> r[i] == s[i]
    ensures forall i :: 0 <= i < |s| && IsUpper(s[i]) ==> r[i] as int == s[i] as int + 32
  {
    seq(|s|, i requires 0 <= i < |s| => LowerChar(s[i]))
  }

  lemma LowercasedIdempotent(s: string)
    ensures Lowercased(Lowercased(s)) == Lowercased(s)
  {
  }

  /** The characters Python's `str.isspace()` accepts, which are the ones
      `str.rstrip()` removes when it is given no argument. */
  predicate IsSpace(c: char) {
    || '\t' <= c <= '\r'
    || '\U{1C}' <= c <= '\U{1F}'
    || c == ' '
    || c == '\U{85}'
    || c == '\U{A0}'
    || c == '\U{1680}'
    || '\U{2000}' <= c <= '\U{200A}'
    || c == '\U{2028}'
    || c == '\U{2029}'
    || c == '\U{202F}'
    || c == '\U{205F}'
    || c == '\U{3000}'
  }

  /** `str.rstrip()`: drop trailing whitespace. */
  function RightStripped(s: string): (r: string)
    ensures r <= s
    ensures forall i :: |r| <= i < |s| ==> IsSpace(s[i])
    ensures r == [] || !IsSpace(r[|r| - 1])
    decreases |s|
  {
    if s != [] && IsSpace(s[|s| - 1]) then RightStripped(s[..|s| - 1]) else s
  }

  /** The three properties of RightStripped's contract pin its result down. */
  lemma RightStrippedUnique(s: string, t: string)
    requires t <= s
    requires forall i :: |t| <= i < |s| ==> IsSpace(s[i])
    requires t == [] || !IsSpace(t[|t| - 1])
    ensures t == RightStripped(s)
  {
  }

  lemma RightStrippedIdempotent(s: string)
    ensures RightStripped(RightStripped(s)) == RightStripped(s)
    ensures |RightStripped(s)| <= |s|
  {
    var r := RightStripped(s);
    RightStrippedUnique(r, r);
  }

  /** The concrete `StringFunction` subclasses. */
  datatype StringFunction = StringIdentity | ToLowerCase | RightStrip

  /** `handle_builtin_str` of each subclass. */
  function HandleBuiltinStr(f: StringFunction, x: string): string {
    match f
    case StringIdentity => x
    case ToLowerCase => Lowercased(x)
    case RightStrip => RightStripped(x)
  }

  /** The kinds of argument `StringFunction.__call__` tells apart. */
  datatype StringArg =
    | BuiltinStr(s: string)
    | PandasSeries
    | PolarsSeries
    | PolarsExpr
    | OtherValue

  /** Which optional libraries imported successfully. */
  datatype Installed = Installed(pandas: bool, polars: bool)

  /** What a call does: a string result, a hand-off to one of the column
      handlers (which run inside pandas or polars), or `TypeError`. */
  datatype Outcome =
    | Value(s: string)
    | PandasSeriesHandled
    | PolarsSeriesHandled
    | PolarsExprHandled
    | TypeError

  /** `StringFunction.__call__`: dispatch on the kind of the argument. */
  function Call(f: StringFunction, x: StringArg, libs: Installed): (r: Outcome)
    ensures x.BuiltinStr? ==> r == Value(HandleBuiltinStr(f, x.s))
    ensures r.Value? <==> x.BuiltinStr?
    ensures r.TypeError? <==>
      || x.OtherValue?
      || (x.PandasSeries? && !libs.pandas)
      || ((x.PolarsSeries? || x.PolarsExpr?) && !libs.polars)
  {
    if x.BuiltinStr? then Value(HandleBuiltinStr(f, x.s))
    else if libs.pandas && x.PandasSeries? then PandasSeriesHandled
    else if libs.polars && x.PolarsSeries? then PolarsSeriesHandled
    else if libs.polars && x.PolarsExpr? then PolarsExprHandled
    else TypeError
  }

  lemma IdentityKeepsInput(x: string, libs: Installed)
    ensures Call(StringIdentity, BuiltinStr(x), libs) == Value(x)
  {
  }

  lemma LowerCaseExample()
    ensures Lowercased("HELLO  ") == "hello  "
  {
  }

  lemma RightStripExample()
    ensures RightStripped("hello \t\n") == "hello"
  {
    RightStrippedUnique("hello \t\n", "hello");
  }
}
