/**
 The packing of memory category codes into one mapping array. Language categories are numbered
 from 0 upwards and OMR categories from 0x80000000 upwards; the first kind fills the array from
 its front, the second from its back.
 */
module CategoryCodes {
  import opened Words

  /** `uint32_t` category codes. */
  type Code = c: int | 0 <= c < TWO_32

  const LANGUAGE_CATEGORY_LIMIT: Code := 0x7FFF_FFFF

  function OmrIndex(c: Code): (i: nat)
  {
    c % TWO_31
  }

  function IndexFromCode(mappingSize: nat, c: Code): int
  {
    if c > LANGUAGE_CATEGORY_LIMIT
    then UInt32(UInt32(UInt32(mappingSize) - 1) - OmrIndex(c))
    else c
  }

  /** What one code asks of the front (`omr` false) or the back (`omr` true) of the array. */
  function Ask(c: Code, omr: bool): nat
  {
    if !omr && c < LANGUAGE_CATEGORY_LIMIT then c
    else if omr && c > LANGUAGE_CATEGORY_LIMIT then OmrIndex(c)
    else 0
  }

  /** The largest index asked for at one end, 0 if there is none. */
  function Largest(codes: seq<Code>, omr: bool): (m: nat)
    ensures forall c :: c in codes ==> Ask(c, omr) <= m
    ensures m == 0 || exists c :: c in codes && Ask(c, omr) == m
    ensures m < TWO_31 && (!omr ==> m < LANGUAGE_CATEGORY_LIMIT)
  {
    if codes == [] then 0
    else
      var last := codes[|codes| - 1];
      assert codes == codes[..|codes| - 1] + [last];
      var m := Largest(codes[..|codes| - 1], omr);
      if m > Ask(last, omr) then m else Ask(last, omr)
  }

  function MappingSize(codes: seq<Code>): nat
  {
    Largest(codes, false) + 1 + Largest(codes, true) + 1
  }

  /** The counting walk: two running maxima, then the size of the array that serves both ends. */
  method CountSlots(codes: seq<Code>) returns (size: nat)
    ensures size == MappingSize(codes)
  {
    var maxLanguage: nat, maxOmr: nat := 0, 0;
    for i := 0 to |codes|
      invariant maxLanguage == Largest(codes[..i], false)
      invariant maxOmr == Largest(codes[..i], true)
    {
      var code := codes[i];
      assert codes[..i + 1][..i] == codes[..i];
      if code < LANGUAGE_CATEGORY_LIMIT {
        maxLanguage := if maxLanguage > code then maxLanguage else code;
      } else if code > LANGUAGE_CATEGORY_LIMIT {
        var index := OmrIndex(code);
        maxOmr := if maxOmr > index then maxOmr else index;
      }
    }
    assert codes[..|codes|] == codes;
    size := maxLanguage + 1 + maxOmr + 1;
  }

  /** The size fits 32 bits, so the cast in the index computation loses nothing; and the bound is tight. */
  lemma MappingSizeFits(codes: seq<Code>)
    ensures 2 <= MappingSize(codes) < TWO_32
    ensures UInt32(MappingSize(codes)) == MappingSize(codes)
    ensures exists full: seq<Code> :: MappingSize(full) == TWO_32 - 1
  {
    var full: seq<Code> := [0x7FFF_FFFE, 0xFFFF_FFFF];
    assert 0x7FFF_FFFE in full && 0xFFFF_FFFF in full;
    assert Ask(0x7FFF_FFFE, false) == 0x7FFF_FFFE && Ask(0xFFFF_FFFF, true) == 0x7FFF_FFFF;
    assert MappingSize(full) == TWO_32 - 1;
  }

  /** Without wrap-around, an OMR code counts back from the last slot. */
  lemma BackIndex(size: nat, c: Code)
    requires OmrIndex(c) < size < TWO_32
    requires c > LANGUAGE_CATEGORY_LIMIT
    ensures OmrIndex(c) == c - TWO_31
    ensures IndexFromCode(size, c) == size - 1 - OmrIndex(c)
  {
    UInt32Exact(size);
    UInt32Exact(size - 1);
    UInt32Exact(size - 1 - OmrIndex(c));
  }

  /** The index of a walked code is inside the array exactly when the code is not the excluded limit,
      or the array happens to be longer than the limit. */
  lemma IndexInBoundsIff(codes: seq<Code>, c: Code)
    requires c in codes
    ensures 0 <= IndexFromCode(MappingSize(codes), c) < MappingSize(codes)
            <==> (c != LANGUAGE_CATEGORY_LIMIT || LANGUAGE_CATEGORY_LIMIT < MappingSize(codes))
  {
    MappingSizeFits(codes);
    assert Ask(c, false) <= Largest(codes, false) && Ask(c, true) <= Largest(codes, true);
    if c > LANGUAGE_CATEGORY_LIMIT {
      BackIndex(MappingSize(codes), c);
    }
  }

  /** No two walked codes share a slot. */
  lemma IndexInjective(codes: seq<Code>, c: Code, d: Code)
    requires c in codes && d in codes && c != d
    requires c != LANGUAGE_CATEGORY_LIMIT && d != LANGUAGE_CATEGORY_LIMIT
    ensures IndexFromCode(MappingSize(codes), c) != IndexFromCode(MappingSize(codes), d)
  {
    MappingSizeFits(codes);
    assert Ask(c, false) <= Largest(codes, false) && Ask(c, true) <= Largest(codes, true);
    assert Ask(d, false) <= Largest(codes, false) && Ask(d, true) <= Largest(codes, true);
    if c > LANGUAGE_CATEGORY_LIMIT {
      BackIndex(MappingSize(codes), c);
    }
    if d > LANGUAGE_CATEGORY_LIMIT {
      BackIndex(MappingSize(codes), d);
    }
  }

  /** The excluded code is never counted: alone in a walk it indexes far outside its two-slot array. */
  lemma LimitCodeOverruns()
    ensures MappingSize([LANGUAGE_CATEGORY_LIMIT]) == 2
    ensures IndexFromCode(2, LANGUAGE_CATEGORY_LIMIT) == LANGUAGE_CATEGORY_LIMIT
  {
    var codes: seq<Code> := [LANGUAGE_CATEGORY_LIMIT];
    assert codes[..|codes| - 1] == [];
  }
}
