/** The fourteen part categories of the tracker and the ordinal table derived
    from their declaration order (TOTAL_PART_COUNTS and PART_IDX). The ordinal
    of a category selects its slot in the game's inventory table. */
module Categories {

  datatype Category =
    | HEADS | CORES | ARMS | LEGS | BOOSTER | FCS | GENERATOR
    | RADIATOR | INSIDE | EXTENSION | BACK_UNIT | ARM_UNIT_R | ARM_UNIT_L | OPTIONAL

  /** The keys of TOTAL_PART_COUNTS, in declaration order. */
  const Declared: seq<Category> :=
    [HEADS, CORES, ARMS, LEGS, BOOSTER, FCS, GENERATOR,
     RADIATOR, INSIDE, EXTENSION, BACK_UNIT, ARM_UNIT_R, ARM_UNIT_L, OPTIONAL]

  const CATEGORY_COUNT: nat := 14

  /** The values of TOTAL_PART_COUNTS: how many parts the game defines per category.
      The decoder never uses them; they are kept as the table's data. */
  function TotalPartCount(t: Category): nat
  {
    match t
    case HEADS => 21
    case CORES => 12
    case ARMS => 39
    case LEGS => 61
    case BOOSTER => 11
    case FCS => 12
    case GENERATOR => 9
    case RADIATOR => 9
    case INSIDE => 22
    case EXTENSION => 28
    case BACK_UNIT => 80
    case ARM_UNIT_R => 82
    case ARM_UNIT_L => 43
    case OPTIONAL => 20
  }

  /** The position of the first occurrence of t in s. */
  function IndexOf(s: seq<Category>, t: Category): (r: nat)
    requires t in s
    ensures r < |s| && s[r] == t
    ensures forall j :: 0 <= j < r ==> s[j] != t
  {
    if s[0] == t then 0 else 1 + IndexOf(s[1..], t)
  }

  /** PART_IDX: the 0-based position of a category among the declared keys
      (PartIdxIsDeclarationPosition proves the table is exactly that). */
  function PartIdx(t: Category): (r: nat)
    ensures r < CATEGORY_COUNT
  {
    match t
    case HEADS => 0
    case CORES => 1
    case ARMS => 2
    case LEGS => 3
    case BOOSTER => 4
    case FCS => 5
    case GENERATOR => 6
    case RADIATOR => 7
    case INSIDE => 8
    case EXTENSION => 9
    case BACK_UNIT => 10
    case ARM_UNIT_R => 11
    case ARM_UNIT_L => 12
    case OPTIONAL => 13
  }

  /** The category declared at a position has that position as its ordinal. */
  lemma PartIdxOfDeclared(i: nat)
    requires i < CATEGORY_COUNT
    ensures PartIdx(Declared[i]) == i
  {
  }

  /** A category's ordinal is a position where it is declared. */
  lemma DeclaredAtPartIdx(t: Category)
    ensures Declared[PartIdx(t)] == t
  {
  }

  /** No category is declared twice. */
  lemma DeclaredDistinct()
    ensures forall i, j :: 0 <= i < j < |Declared| ==> Declared[i] != Declared[j]
  {
    forall i, j | 0 <= i < j < |Declared|
      ensures Declared[i] != Declared[j]
    {
      PartIdxOfDeclared(i);
      PartIdxOfDeclared(j);
    }
  }

  /** PART_IDX maps every category to the first, and only, position at which it
      is declared: the comprehension over the keys of TOTAL_PART_COUNTS. */
  lemma PartIdxIsDeclarationPosition(t: Category)
    ensures t in Declared && PartIdx(t) == IndexOf(Declared, t)
  {
    DeclaredAtPartIdx(t);
    var r := IndexOf(Declared, t);
    PartIdxOfDeclared(r);
  }

  /** PART_IDX is injective, and its range is exactly 0..13. */
  lemma PartIdxBijective(t1: Category, t2: Category, i: nat)
    ensures PartIdx(t1) == PartIdx(t2) <==> t1 == t2
    ensures i < CATEGORY_COUNT ==> exists t :: PartIdx(t) == i
  {
    DeclaredAtPartIdx(t1);
    DeclaredAtPartIdx(t2);
    if i < CATEGORY_COUNT {
      PartIdxOfDeclared(i);
    }
  }
}
