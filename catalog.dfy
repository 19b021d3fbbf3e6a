/** The part catalog (the contents of sl_parts.json) and the lookups
    get_part_names / get_part_details, which map owned identifiers to catalog
    fields. */
module Catalog {
  import opened Categories

  /** One catalog position: a placeholder string, or a part record. */
  datatype CatalogEntry = Placeholder(text: string) | Entry(name: string, unlock: string)

  /** PARTS: every category's ordered catalog. */
  type Parts = Category -> seq<CatalogEntry>

  /** The field a lookup returns: 'NAME' or 'UNLOCK'. */
  datatype Field = Name | Unlock

  /** Why a lookup fails: the index is past the end of the catalog (IndexError),
      or it names a placeholder, which has no fields (TypeError). */
  datatype LookupError = IndexOutOfRange(index: nat) | NotARecord(index: nat)

  datatype Result<T> = Ok(value: T) | Err(error: LookupError)

  function FieldOf(e: CatalogEntry, f: Field): string
    requires e.Entry?
  {
    match f
    case Name => e.name
    case Unlock => e.unlock
  }

  /** Whether catalog position i holds a part record. */
  predicate Resolvable(entries: seq<CatalogEntry>, i: nat)
  {
    i < |entries| && entries[i].Entry?
  }

  /** The error that looking up an unresolvable index raises. */
  function ErrorFor(entries: seq<CatalogEntry>, i: nat): LookupError
  {
    if i < |entries| then NotARecord(i) else IndexOutOfRange(i)
  }

  /** The list comprehension [entries[part][field] for part in parts]: the field
      of every part in order, or the error of the first part that has none. */
  function Lookup(entries: seq<CatalogEntry>, parts: seq<nat>, f: Field): (r: Result<seq<string>>)
    ensures r.Ok? <==> forall k :: 0 <= k < |parts| ==> Resolvable(entries, parts[k])
    ensures r.Ok? ==>
      && |r.value| == |parts|
      && forall k :: 0 <= k < |parts| ==> r.value[k] == FieldOf(entries[parts[k]], f)
    ensures r.Err? ==>
      exists k :: && 0 <= k < |parts| && !Resolvable(entries, parts[k])
                  && r.error == ErrorFor(entries, parts[k])
                  && forall j :: 0 <= j < k ==> Resolvable(entries, parts[j])
  {
    if parts == [] then Ok([])
    else if !Resolvable(entries, parts[0]) then Err(ErrorFor(entries, parts[0]))
    else
      match Lookup(entries, parts[1..], f)
      case Err(e) => Err(e)
      case Ok(rest) => Ok([FieldOf(entries[parts[0]], f)] + rest)
  }

  /** get_part_names(type, parts). */
  function PartNames(catalog: Parts, t: Category, parts: seq<nat>): (r: Result<seq<string>>)
    ensures r.Ok? <==> forall k :: 0 <= k < |parts| ==> Resolvable(catalog(t), parts[k])
    ensures r.Ok? ==>
      && |r.value| == |parts|
      && forall k :: 0 <= k < |parts| ==> r.value[k] == catalog(t)[parts[k]].name
  {
    Lookup(catalog(t), parts, Name)
  }

  /** get_part_details(type, parts). */
  function PartDetails(catalog: Parts, t: Category, parts: seq<nat>): (r: Result<seq<string>>)
    ensures r.Ok? <==> forall k :: 0 <= k < |parts| ==> Resolvable(catalog(t), parts[k])
    ensures r.Ok? ==>
      && |r.value| == |parts|
      && forall k :: 0 <= k < |parts| ==> r.value[k] == catalog(t)[parts[k]].unlock
  {
    Lookup(catalog(t), parts, Unlock)
  }

  /** The names and the unlock texts of the same parts line up: both succeed or
      both fail with the same error, and position k of each describes parts[k]. */
  lemma {:induction false} NamesAndDetailsAgree(catalog: Parts, t: Category, parts: seq<nat>)
    ensures PartNames(catalog, t, parts).Ok? == PartDetails(catalog, t, parts).Ok?
    ensures PartNames(catalog, t, parts).Err? ==>
              PartNames(catalog, t, parts).error == PartDetails(catalog, t, parts).error
    ensures PartNames(catalog, t, parts).Ok? ==>
              forall k :: 0 <= k < |parts| ==>
                catalog(t)[parts[k]] == Entry(PartNames(catalog, t, parts).value[k],
                                              PartDetails(catalog, t, parts).value[k])
  {
    LookupErrorIndependentOfField(catalog(t), parts);
  }

  /** A failing lookup fails the same way whichever field it asks for. */
  lemma {:induction false} LookupErrorIndependentOfField(entries: seq<CatalogEntry>, parts: seq<nat>)
    ensures Lookup(entries, parts, Name).Err? ==>
              Lookup(entries, parts, Name).error == Lookup(entries, parts, Unlock).error
  {
    if parts != [] && Resolvable(entries, parts[0]) {
      LookupErrorIndependentOfField(entries, parts[1..]);
    }
  }
}
