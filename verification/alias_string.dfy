/** `AliasAwareString`: a string that compares and hashes through its
    representative in an `AliasSpace`. */
module AliasStrings {
  import opened Wrappers
  import opened Space

  /** What `space.str(data)` is given: a plain `str`, or another
      `AliasAwareString` (which Python's `str()` turns into its text). */
  datatype Operand = Plain(s: string) | Wrapped(w: AliasAwareString)

  /** Python's `str(data)` for the two kinds of operand. */
  function Text(x: Operand): string {
    match x
    case Plain(s) => s
    case Wrapped(w) => w.ToString()
  }

  datatype AliasAwareString = AliasAwareString(space: AliasSpace, data: string) {

    /** `representative`: the space's lookup with the default miss
        behaviour, so an unknown string is its own representative. */
    function Representative(): string {
      space.Lookup<()>(data, None).str
    }

    /** `__str__`: the text the string was made from. */
    function ToString(): string {
      data
    }

    /** `__repr__`: the quoted text, then the space's own repr. */
    function ToRepr(): (r: string)
      ensures |r| == |data| + |space.ToRepr()| + 8
      ensures r[..2] == "<'" && r[2..2 + |data|] == data
      ensures r[2 + |data|..] == "' in " + space.ToRepr() + ">"
    {
      "<'" + data + "' in " + space.ToRepr() + ">"
    }

    /** `__hash__`, for any hash function on `str`. */
    function Hash(strHash: string -> int): int {
      strHash(Representative())
    }

    /** `__eq__`: compare representatives, the right operand re-read in this
        string's space. */
    predicate Equals(other: Operand) {
      Representative() == Make(space, other).Representative()
    }
  }

  /** `AliasAwareString(data, space)`, which is also what `space.str(data)`
      returns. */
  function Make(space: AliasSpace, data: Operand): (a: AliasAwareString)
    ensures a.space == space
    ensures a.ToString() == Text(data)
  {
    AliasAwareString(space, Text(data))
  }

  /** A representative is a known representative of the space, or, for a
      string the space does not know, the string itself. */
  lemma RepresentativeIsKnownOrSelf(a: AliasAwareString)
    ensures a.Representative() == a.data
         || exists i :: 0 <= i < |a.space.aliases| && a.Representative() == a.space.aliases[i].0
    ensures a.space.Preprocess(a.data) !in a.space.Table() ==> a.Representative() == a.data
  {
    if a.space.Preprocess(a.data) in a.space.Table() {
      a.space.HitIsRepresentative<()>(a.data, None);
    }
  }

  /** `str()` gives back the text a string was made from, and re-wrapping a
      string of the same space gives the same string. */
  lemma MakeRoundTrip(space: AliasSpace, s: string, a: AliasAwareString)
    ensures Make(space, Plain(s)).ToString() == s
    ensures a.space == space ==> Make(space, Wrapped(a)) == a
  {
  }

  /** Within one space, `==` is equality of representatives. */
  lemma EqualsIffSameRepresentative(a: AliasAwareString, b: AliasAwareString)
    requires a.space == b.space
    ensures a.Equals(Wrapped(b)) <==> a.Representative() == b.Representative()
  {
  }

  /** Against a plain string, `==` compares with that string's representative. */
  lemma EqualsPlain(a: AliasAwareString, s: string)
    ensures a.Equals(Plain(s)) <==> a.Representative() == a.space.Lookup<()>(s, None).str
  {
  }

  lemma EqualsReflexive(a: AliasAwareString)
    ensures a.Equals(Wrapped(a))
  {
  }

  lemma EqualsSymmetric(a: AliasAwareString, b: AliasAwareString)
    requires a.space == b.space
    ensures a.Equals(Wrapped(b)) <==> b.Equals(Wrapped(a))
  {
  }

  lemma EqualsTransitive(a: AliasAwareString, b: AliasAwareString, c: AliasAwareString)
    requires a.space == b.space == c.space
    requires a.Equals(Wrapped(b)) && b.Equals(Wrapped(c))
    ensures a.Equals(Wrapped(c))
  {
  }

  /** Equal strings of one space have equal hashes. */
  lemma HashConsistent(a: AliasAwareString, b: AliasAwareString, strHash: string -> int)
    requires a.space == b.space && a.Equals(Wrapped(b))
    ensures a.Hash(strHash) == b.Hash(strHash)
  {
  }

  /** Across two spaces `==` is one-sided: it resolves both sides in the LEFT
      operand's space. With `s1` knowing `"NL"` as an alias of `"The
      Netherlands"` and `s2` knowing nothing, `s1.str("NL") ==
      s2.str("The Netherlands")` holds while the reverse comparison fails. */
  lemma CrossSpaceEqualityOneSided(s1: AliasSpace, s2: AliasSpace)
    requires s1.aliases == [("The Netherlands", ["NL"])] && s1.caseSensitive
    requires forall s :: s1.processFunc(s) == s
    requires s2.aliases == [] && s2.caseSensitive
    requires forall s :: s2.processFunc(s) == s
    ensures var a, b := Make(s1, Plain("NL")), Make(s2, Plain("The Netherlands"));
      a.Equals(Wrapped(b)) && !b.Equals(Wrapped(a))
  {
    s1.AliasResolvesToRepresentative<()>(0, 0, None);
    s1.RepresentativeResolvesToItself<()>(0, None);
    s2.UnknownStringMisses<()>("NL", ());
    s2.UnknownStringMisses<()>("The Netherlands", ());
  }

  /** `s.str("holland") == s.str("NL")` in the case-insensitive Netherlands space. */
  lemma NetherlandsStringsEqual(sp: AliasSpace)
    requires sp.aliases == [("The Netherlands", ["NL", "Netherlands", "Holland"])] && !sp.caseSensitive
    requires forall s :: sp.processFunc(s) == s
    ensures Make(sp, Plain("holland")).Equals(Wrapped(Make(sp, Plain("NL"))))
    ensures !Make(sp, Plain("holland")).Equals(Plain("Belgium"))
  {
    NetherlandsExample(sp);
  }
}
