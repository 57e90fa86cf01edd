/** The days-left perspective, its entity query and the intent's default. */
module DaysLeftIntent {
  import opened Wrappers
  import opened EntityQueries

  /** `enum DaysDisplayOption: String` */
  datatype DaysDisplayOption = DaysLeft | DaysPassed

  /** `.rawValue`: the case name. */
  function RawValue(o: DaysDisplayOption): string {
    match o
    case DaysLeft => "daysLeft"
    case DaysPassed => "daysPassed"
  }

  /** `DaysDisplayOption(rawValue:)`: accepts exactly the raw values. */
  function FromRawValue(raw: string): (r: Option<DaysDisplayOption>)
    ensures r.Some? <==> raw == "daysLeft" || raw == "daysPassed"
    ensures r.Some? ==> RawValue(r.value) == raw
  {
    if raw == "daysLeft" then Some(DaysLeft)
    else if raw == "daysPassed" then Some(DaysPassed)
    else None
  }

  lemma RawValueRoundTrip(o: DaysDisplayOption)
    ensures FromRawValue(RawValue(o)) == Some(o)
  {
  }

  predicate IsRawValue(raw: string) {
    FromRawValue(raw).Some?
  }

  /** `DaysLeftOptionEntity` */
  datatype DaysLeftOptionEntity = DaysLeftOptionEntity(id: string, displayOption: DaysDisplayOption)

  function IdOf(e: DaysLeftOptionEntity): string {
    e.id
  }

  /** The closure given to `compactMap` in `entities(for:)`. */
  function EntityFor(id: string): (r: Option<DaysLeftOptionEntity>)
    ensures r.Some? <==> IsRawValue(id)
    ensures r.Some? ==> r.value.id == id && id == RawValue(r.value.displayOption)
  {
    match FromRawValue(id)
    case Some(option) => Some(DaysLeftOptionEntity(id, option))
    case None => None
  }

  /** `DaysLeftEntityQuery.entities(for:)` */
  function Entities(identifiers: seq<string>): (r: seq<DaysLeftOptionEntity>)
    ensures |r| <= |identifiers|
    ensures forall e :: e in r ==> e.id == RawValue(e.displayOption)
  {
    var r := CompactMap(identifiers, EntityFor);
    forall e | e in r
      ensures e.id == RawValue(e.displayOption)
    {
      CompactMapSound(identifiers, EntityFor, e);
    }
    r
  }

  /** The query keeps the valid identifiers, in order, and drops the others. */
  lemma EntitiesKeepValidIdentifiers(identifiers: seq<string>)
    ensures MapSeq(Entities(identifiers), IdOf) == Filter(identifiers, IsRawValue)
  {
    CompactMapKeys(identifiers, EntityFor, IdOf, IsRawValue);
  }

  /** `DaysLeftEntityQuery.suggestedEntities()` */
  function SuggestedEntities(): seq<DaysLeftOptionEntity> {
    [DaysLeftOptionEntity("daysLeft", DaysLeft), DaysLeftOptionEntity("daysPassed", DaysPassed)]
  }

  /** The suggestions cover both options and their ids query back to themselves. */
  lemma SuggestedEntitiesRoundTrip()
    ensures Entities(MapSeq(SuggestedEntities(), IdOf)) == SuggestedEntities()
    ensures forall o: DaysDisplayOption :: DaysLeftOptionEntity(RawValue(o), o) in SuggestedEntities()
  {
    var ids := MapSeq(SuggestedEntities(), IdOf);
    assert ids == ["daysLeft", "daysPassed"];
    CompactMapTotal(ids, EntityFor);
  }

  /** `DaysLeftIntent`: the configured perspective, if the user set one. */
  datatype DaysLeftIntent = DaysLeftIntent(displayOption: Option<DaysLeftOptionEntity>)

  /** `resolvedDisplayOption`: the set entity's option, else `.daysLeft`. */
  function ResolvedDisplayOption(intent: DaysLeftIntent): (o: DaysDisplayOption)
    ensures intent.displayOption.Some? ==> o == intent.displayOption.value.displayOption
    ensures intent.displayOption.None? ==> o == DaysLeft
  {
    match intent.displayOption
    case Some(e) => e.displayOption
    case None => DaysLeft
  }
}
