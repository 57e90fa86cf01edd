/** The month-grid perspective and cell shape, their entity queries and the intent's defaults. */
module MonthGridIntent {
  import opened Wrappers
  import opened EntityQueries

  /** `enum MonthGridDisplayOption: String` */
  datatype MonthGridDisplayOption = DaysLeft | DaysPassed

  /** `enum MonthGridShape: String` */
  datatype MonthGridShape = Square | Circle

  function DisplayOptionRawValue(o: MonthGridDisplayOption): string {
    match o
    case DaysLeft => "daysLeft"
    case DaysPassed => "daysPassed"
  }

  function ShapeRawValue(s: MonthGridShape): string {
    match s
    case Square => "square"
    case Circle => "circle"
  }

  /** `MonthGridDisplayOption(rawValue:)`: accepts exactly the raw values. */
  function DisplayOptionFromRawValue(raw: string): (r: Option<MonthGridDisplayOption>)
    ensures r.Some? <==> raw == "daysLeft" || raw == "daysPassed"
    ensures r.Some? ==> DisplayOptionRawValue(r.value) == raw
  {
    if raw == "daysLeft" then Some(DaysLeft)
    else if raw == "daysPassed" then Some(DaysPassed)
    else None
  }

  /** `MonthGridShape(rawValue:)`: accepts exactly the raw values. */
  function ShapeFromRawValue(raw: string): (r: Option<MonthGridShape>)
    ensures r.Some? <==> raw == "square" || raw == "circle"
    ensures r.Some? ==> ShapeRawValue(r.value) == raw
  {
    if raw == "square" then Some(Square)
    else if raw == "circle" then Some(Circle)
    else None
  }

  lemma RawValueRoundTrips(o: MonthGridDisplayOption, s: MonthGridShape)
    ensures DisplayOptionFromRawValue(DisplayOptionRawValue(o)) == Some(o)
    ensures ShapeFromRawValue(ShapeRawValue(s)) == Some(s)
  {
  }

  predicate IsDisplayOptionRawValue(raw: string) {
    DisplayOptionFromRawValue(raw).Some?
  }

  predicate IsShapeRawValue(raw: string) {
    ShapeFromRawValue(raw).Some?
  }

  /** `MonthGridOptionEntity` */
  datatype MonthGridOptionEntity = MonthGridOptionEntity(id: string, displayOption: MonthGridDisplayOption)

  /** `MonthGridShapeEntity` */
  datatype MonthGridShapeEntity = MonthGridShapeEntity(id: string, shape: MonthGridShape)

  function OptionIdOf(e: MonthGridOptionEntity): string {
    e.id
  }

  function ShapeIdOf(e: MonthGridShapeEntity): string {
    e.id
  }

  /** The closure given to `compactMap` in the option query's `entities(for:)`. */
  function OptionEntityFor(id: string): (r: Option<MonthGridOptionEntity>)
    ensures r.Some? <==> IsDisplayOptionRawValue(id)
    ensures r.Some? ==> r.value.id == id && id == DisplayOptionRawValue(r.value.displayOption)
  {
    match DisplayOptionFromRawValue(id)
    case Some(option) => Some(MonthGridOptionEntity(id, option))
    case None => None
  }

  /** The closure given to `compactMap` in the shape query's `entities(for:)`. */
  function ShapeEntityFor(id: string): (r: Option<MonthGridShapeEntity>)
    ensures r.Some? <==> IsShapeRawValue(id)
    ensures r.Some? ==> r.value.id == id && id == ShapeRawValue(r.value.shape)
  {
    match ShapeFromRawValue(id)
    case Some(shape) => Some(MonthGridShapeEntity(id, shape))
    case None => None
  }

  /** `MonthGridShapeQuery.entities(for:)` */
  function ShapeEntities(identifiers: seq<string>): (r: seq<MonthGridShapeEntity>)
    ensures |r| <= |identifiers|
    ensures forall e :: e in r ==> e.id == ShapeRawValue(e.shape)
  {
    var r := CompactMap(identifiers, ShapeEntityFor);
    forall e | e in r
      ensures e.id == ShapeRawValue(e.shape)
    {
      CompactMapSound(identifiers, ShapeEntityFor, e);
    }
    r
  }

  /** `MonthGridEntityQuery.entities(for:)` */
  function OptionEntities(identifiers: seq<string>): (r: seq<MonthGridOptionEntity>)
    ensures |r| <= |identifiers|
    ensures forall e :: e in r ==> e.id == DisplayOptionRawValue(e.displayOption)
  {
    var r := CompactMap(identifiers, OptionEntityFor);
    forall e | e in r
      ensures e.id == DisplayOptionRawValue(e.displayOption)
    {
      CompactMapSound(identifiers, OptionEntityFor, e);
    }
    r
  }

  /** The shape query keeps "square" and "circle", in order, and drops the others. */
  lemma ShapeEntitiesKeepValidIdentifiers(identifiers: seq<string>)
    ensures MapSeq(ShapeEntities(identifiers), ShapeIdOf) == Filter(identifiers, IsShapeRawValue)
  {
    CompactMapKeys(identifiers, ShapeEntityFor, ShapeIdOf, IsShapeRawValue);
  }

  /** The option query keeps "daysLeft" and "daysPassed", in order, and drops the others. */
  lemma OptionEntitiesKeepValidIdentifiers(identifiers: seq<string>)
    ensures MapSeq(OptionEntities(identifiers), OptionIdOf) == Filter(identifiers, IsDisplayOptionRawValue)
  {
    CompactMapKeys(identifiers, OptionEntityFor, OptionIdOf, IsDisplayOptionRawValue);
  }

  /** `MonthGridShapeQuery.suggestedEntities()` */
  function SuggestedShapeEntities(): seq<MonthGridShapeEntity> {
    [MonthGridShapeEntity("square", Square), MonthGridShapeEntity("circle", Circle)]
  }

  /** `MonthGridEntityQuery.suggestedEntities()` */
  function SuggestedOptionEntities(): seq<MonthGridOptionEntity> {
    [MonthGridOptionEntity("daysLeft", DaysLeft), MonthGridOptionEntity("daysPassed", DaysPassed)]
  }

  /** Both queries' suggestions cover every case and query back to themselves. */
  lemma SuggestedEntitiesRoundTrip()
    ensures ShapeEntities(MapSeq(SuggestedShapeEntities(), ShapeIdOf)) == SuggestedShapeEntities()
    ensures OptionEntities(MapSeq(SuggestedOptionEntities(), OptionIdOf)) == SuggestedOptionEntities()
    ensures forall s: MonthGridShape :: MonthGridShapeEntity(ShapeRawValue(s), s) in SuggestedShapeEntities()
    ensures forall o: MonthGridDisplayOption ::
      MonthGridOptionEntity(DisplayOptionRawValue(o), o) in SuggestedOptionEntities()
  {
    var shapeIds := MapSeq(SuggestedShapeEntities(), ShapeIdOf);
    assert shapeIds == ["square", "circle"];
    CompactMapTotal(shapeIds, ShapeEntityFor);
    var optionIds := MapSeq(SuggestedOptionEntities(), OptionIdOf);
    assert optionIds == ["daysLeft", "daysPassed"];
    CompactMapTotal(optionIds, OptionEntityFor);
  }

  /** `MonthGridIntent`: the configured perspective and shape, if the user set them. */
  datatype MonthGridIntent = MonthGridIntent(
    displayOption: Option<MonthGridOptionEntity>,
    shapeOption: Option<MonthGridShapeEntity>)

  /** `resolvedDisplayOption`: the set entity's option, else `.daysLeft`. */
  function ResolvedDisplayOption(intent: MonthGridIntent): (o: MonthGridDisplayOption)
    ensures intent.displayOption.Some? ==> o == intent.displayOption.value.displayOption
    ensures intent.displayOption.None? ==> o == DaysLeft
  {
    match intent.displayOption
    case Some(e) => e.displayOption
    case None => DaysLeft
  }

  /** `resolvedShape`: the set entity's shape, else `.square`. */
  function ResolvedShape(intent: MonthGridIntent): (s: MonthGridShape)
    ensures intent.shapeOption.Some? ==> s == intent.shapeOption.value.shape
    ensures intent.shapeOption.None? ==> s == Square
  {
    match intent.shapeOption
    case Some(e) => e.shape
    case None => Square
  }
}
