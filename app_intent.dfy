/** The year-progress option, its entity query and the intent's default. */
module AppIntent {
  import opened Wrappers
  import opened EntityQueries

  /** `enum YearProgressOption: String` */
  datatype YearProgressOption = Elapsed | Remaining

  /** `.rawValue`: the case name. */
  function RawValue(o: YearProgressOption): string {
    match o
    case Elapsed => "elapsed"
    case Remaining => "remaining"
  }

  /** `YearProgressOption(rawValue:)`: accepts exactly the raw values. */
  function FromRawValue(raw: string): (r: Option<YearProgressOption>)
    ensures r.Some? <==> raw == "elapsed" || raw == "remaining"
    ensures r.Some? ==> RawValue(r.value) == raw
  {
    if raw == "elapsed" then Some(Elapsed)
    else if raw == "remaining" then Some(Remaining)
    else None
  }

  lemma RawValueRoundTrip(o: YearProgressOption)
    ensures FromRawValue(RawValue(o)) == Some(o)
  {
  }

  /** `FromRawValue` succeeds on `raw` with `o` exactly when `raw` is the raw value of `o`. */
  lemma FromRawValueIff(raw: string, o: YearProgressOption)
    ensures FromRawValue(raw) == Some(o) <==> raw == RawValue(o)
  {
  }

  predicate IsRawValue(raw: string) {
    FromRawValue(raw).Some?
  }

  /** `YearProgressOptionEntity` */
  datatype YearProgressOptionEntity = YearProgressOptionEntity(id: string, displayOption: YearProgressOption)

  function IdOf(e: YearProgressOptionEntity): string {
    e.id
  }

  /** The closure given to `compactMap` in `entities(for:)`. */
  function EntityFor(id: string): (r: Option<YearProgressOptionEntity>)
    ensures r.Some? <==> IsRawValue(id)
    ensures r.Some? ==> r.value.id == id && id == RawValue(r.value.displayOption)
  {
    match FromRawValue(id)
    case Some(option) => Some(YearProgressOptionEntity(id, option))
    case None => None
  }

  /** `YearProgressEntityQuery.entities(for:)` */
  function Entities(identifiers: seq<string>): (r: seq<YearProgressOptionEntity>)
    ensures |r| <= |identifiers|
    ensures forall e :: e in r ==> e.id == RawValue(e.displayOption)
  {
    var r := CompactMap(identifiers, EntityFor);
    forall e | e in r
      ensures e.id == RawValue(e.displayOption)
    {
      CompactMapSound(identifiers, EntityFor, e);
    }
    r
  }

  /** The query keeps the valid identifiers, in order, and drops the others. */
  lemma EntitiesKeepValidIdentifiers(identifiers: seq<string>)
    ensures MapSeq(Entities(identifiers), IdOf) == Filter(identifiers, IsRawValue)
  {
    CompactMapKeys(identifiers, EntityFor, IdOf, IsRawValue);
  }

  /** On valid identifiers the query yields one entity per identifier. */
  lemma EntitiesOfValidIdentifiers(identifiers: seq<string>)
    requires forall i :: 0 <= i < |identifiers| ==> IsRawValue(identifiers[i])
    ensures |Entities(identifiers)| == |identifiers|
    ensures forall i :: 0 <= i < |identifiers| ==>
      Entities(identifiers)[i].id == identifiers[i] &&
      FromRawValue(identifiers[i]) == Some(Entities(identifiers)[i].displayOption)
  {
    CompactMapTotal(identifiers, EntityFor);
  }

  /** Querying a concatenation queries each part. */
  lemma EntitiesAppend(s: seq<string>, t: seq<string>)
    ensures Entities(s + t) == Entities(s) + Entities(t)
  {
    CompactMapAppend(s, t, EntityFor);
  }

  /** `YearProgressEntityQuery.suggestedEntities()` */
  function SuggestedEntities(): seq<YearProgressOptionEntity> {
    [YearProgressOptionEntity("elapsed", Elapsed), YearProgressOptionEntity("remaining", Remaining)]
  }

  /** The suggestions cover both options and their ids query back to themselves. */
  lemma SuggestedEntitiesRoundTrip()
    ensures Entities(MapSeq(SuggestedEntities(), IdOf)) == SuggestedEntities()
    ensures forall o: YearProgressOption :: YearProgressOptionEntity(RawValue(o), o) in SuggestedEntities()
  {
    var ids := MapSeq(SuggestedEntities(), IdOf);
    assert ids == ["elapsed", "remaining"];
    EntitiesOfValidIdentifiers(ids);
  }

  /** `YearProgressIntent`: the configured option, if the user set one. */
  datatype YearProgressIntent = YearProgressIntent(progressOption: Option<YearProgressOptionEntity>)

  /** `resolvedProgressOption`: the set value, else the "remaining" entity. */
  function ResolvedProgressOption(intent: YearProgressIntent): (e: YearProgressOptionEntity)
    ensures intent.progressOption.Some? ==> e == intent.progressOption.value
    ensures intent.progressOption.None? ==> e.id == "remaining" && e.displayOption == Remaining
  {
    intent.progressOption.GetOr(YearProgressOptionEntity("remaining", Remaining))
  }

  /** An intent whose option came from the query resolves to a well-formed entity:
      its id is its option's raw value, and the default is one of the suggestions. */
  lemma ResolvedProgressOptionWellFormed(intent: YearProgressIntent, identifiers: seq<string>)
    requires intent.progressOption.Some? ==> intent.progressOption.value in Entities(identifiers)
    ensures ResolvedProgressOption(intent).id == RawValue(ResolvedProgressOption(intent).displayOption)
    ensures intent.progressOption.None? ==> ResolvedProgressOption(intent) in SuggestedEntities()
  {
  }
}
