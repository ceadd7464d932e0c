/**
 The colour column of the event table. The table as read from CSV has a
 `name` and a `weight` cell per row, either of which may be missing (a NaN
 in the frame); every missing cell is replaced by the empty string, and then
 each row gets the palette's `events` colour if its name is truthy and the
 `background` colour otherwise. A palette key that is absent raises
 `KeyError`, which ends the row-wise `apply` at the first row that needs it.
 */
module EventColours {

  /** One cell of the frame: a missing value (NaN), a string, or a number when the column was read as numeric. */
  datatype Cell = Missing | Str(s: string) | Number(x: real)

  /** A row of the event log, as parsed. */
  datatype Row = Row(name: Cell, weight: Cell)

  /** A row of the frame once the `colour` column has been added. */
  datatype Event = Event(name: Cell, weight: Cell, colour: Colour)

  /** A colour as it appears in the palette, e.g. `"#1f77b4"`. */
  type Colour = string

  datatype Error = KeyError(key: string)

  datatype Result<T> = Ok(value: T) | Err(error: Error)

  /** The palette keys the colour column reads. */
  const EventsKey: string := "events"
  const BackgroundKey: string := "background"

  /**
   Python's truth value of a cell, as `if row['name']:` takes it: an empty
   string and zero are false; NaN, like every other float, is true.
   */
  predicate Truthy(c: Cell) {
    match c
    case Missing => true
    case Str(s) => s != ""
    case Number(x) => x != 0.0
  }

  /** `fillna('')` on one cell. */
  function FillNa(c: Cell): Cell {
    if c.Missing? then Str("") else c
  }

  /** `events.fillna('')`: every missing cell of every row becomes the empty string; nothing else changes. */
  function FillNaRows(rows: seq<Row>): (filled: seq<Row>)
    ensures |filled| == |rows|
    ensures forall i :: 0 <= i < |rows| ==> !filled[i].name.Missing? && !filled[i].weight.Missing?
    ensures forall i :: 0 <= i < |rows| && !rows[i].name.Missing? ==> filled[i].name == rows[i].name
    ensures forall i :: 0 <= i < |rows| && !rows[i].weight.Missing? ==> filled[i].weight == rows[i].weight
    ensures forall i :: 0 <= i < |rows| && rows[i].name.Missing? ==> filled[i].name == Str("")
    ensures forall i :: 0 <= i < |rows| && rows[i].weight.Missing? ==> filled[i].weight == Str("")
  {
    seq(|rows|, i requires 0 <= i < |rows| => Row(FillNa(rows[i].name), FillNa(rows[i].weight)))
  }

  /** Filling a second time changes nothing. */
  lemma FillNaIdempotent(rows: seq<Row>)
    ensures FillNaRows(FillNaRows(rows)) == FillNaRows(rows)
  {
  }

  /** `colours[key]`, or the `KeyError` Python raises when the palette has no such key. */
  function Lookup(colours: map<string, Colour>, key: string): Result<Colour> {
    if key in colours then Ok(colours[key]) else Err(KeyError(key))
  }

  /**
   `colour_events(row, colours)`: the key it reads is `events` for a truthy
   name and `background` otherwise; it yields that key's colour, or a
   `KeyError` for that key when the palette lacks it.
   */
  function ColourEvents(row: Row, colours: map<string, Colour>): (r: Result<Colour>)
    ensures var key := if Truthy(row.name) then EventsKey else BackgroundKey;
            && (r.Ok? <==> key in colours)
            && (r.Ok? ==> r.value == colours[key])
            && (r.Err? ==> r.error == KeyError(key))
  {
    if Truthy(row.name) then Lookup(colours, EventsKey) else Lookup(colours, BackgroundKey)
  }

  /**
   `events.apply(lambda x: colour_events(x, colours), axis=1)`: one colour per
   row, in row order; the first row whose colour lookup fails ends it with
   that row's error.
   */
  function ColourColumn(rows: seq<Row>, colours: map<string, Colour>): (r: Result<seq<Colour>>)
    ensures r.Ok? <==> forall i :: 0 <= i < |rows| ==> ColourEvents(rows[i], colours).Ok?
    ensures r.Ok? ==> |r.value| == |rows|
    ensures r.Ok? ==> forall i :: 0 <= i < |rows| ==> ColourEvents(rows[i], colours) == Ok(r.value[i])
    ensures r.Err? ==> exists i ::
                         && 0 <= i < |rows|
                         && ColourEvents(rows[i], colours) == Err(r.error)
                         && forall j :: 0 <= j < i ==> ColourEvents(rows[j], colours).Ok?
  {
    if rows == [] then Ok([])
    else
      match ColourEvents(rows[0], colours)
      case Err(e) => Err(e)
      case Ok(c) =>
        var rest := ColourColumn(rows[1..], colours);
        if rest.Err? then
          assert forall i :: 1 <= i < |rows| ==> rows[i] == rows[1..][i - 1];
          Err(rest.error)
        else
          assert forall i :: 1 <= i < |rows| ==> rows[i] == rows[1..][i - 1];
          Ok([c] + rest.value)
  }

  /**
   Lines 23-25 of the script after parsing: fill the missing cells, colour
   every row and add the colours as a new column.
   */
  function LoadEvents(rows: seq<Row>, colours: map<string, Colour>): (r: Result<seq<Event>>)
    ensures r.Ok? ==> |r.value| == |rows|
    ensures r.Ok? ==> forall i :: 0 <= i < |rows| ==>
                        r.value[i].name == FillNa(rows[i].name) && r.value[i].weight == FillNa(rows[i].weight)
    ensures r.Err? <==> ColourColumn(FillNaRows(rows), colours).Err?
    ensures r.Err? ==> r.error == ColourColumn(FillNaRows(rows), colours).error
  {
    var filled := FillNaRows(rows);
    match ColourColumn(filled, colours)
    case Err(e) => Err(e)
    case Ok(column) => Ok(seq(|filled|, i requires 0 <= i < |filled| => Event(filled[i].name, filled[i].weight, column[i])))
  }

  /** After filling, a row counts as named exactly when its name is a non-empty string or a non-zero number. */
  predicate Named(c: Cell) {
    match c
    case Missing => false
    case Str(s) => s != ""
    case Number(x) => x != 0.0
  }

  /**
   In the loaded table a named row has the `events` colour and every other
   row, a row with a missing name included, the `background` colour.
   */
  lemma LoadEventsColours(rows: seq<Row>, colours: map<string, Colour>)
    requires LoadEvents(rows, colours).Ok?
    ensures var events := LoadEvents(rows, colours).value;
            && |events| == |rows|
            && (forall i :: 0 <= i < |rows| && Named(rows[i].name) ==> events[i].colour == colours[EventsKey])
            && (forall i :: 0 <= i < |rows| && !Named(rows[i].name) ==> events[i].colour == colours[BackgroundKey])
  {
  }

  /** A row whose name is missing always gets the `background` colour. */
  lemma MissingNameIsBackground(rows: seq<Row>, colours: map<string, Colour>, i: int)
    requires LoadEvents(rows, colours).Ok?
    requires 0 <= i < |rows| && rows[i].name.Missing?
    ensures |LoadEvents(rows, colours).value| == |rows|
    ensures LoadEvents(rows, colours).value[i].colour == colours[BackgroundKey]
  {
  }

  /**
   The fill is what makes missing names background rows: applied to the rows
   as parsed, `colour_events` would give a missing name (a NaN, which is
   truthy) the `events` colour.
   */
  lemma UnfilledMissingNameIsEvent(row: Row, colours: map<string, Colour>)
    requires row.name.Missing?
    ensures ColourEvents(row, colours) == Lookup(colours, EventsKey)
    ensures ColourEvents(FillNaRows([row])[0], colours) == Lookup(colours, BackgroundKey)
  {
  }

  /**
   Loading fails exactly when a palette key the rows need is absent: `events`
   for a named row, `background` for any other row.
   */
  lemma LoadEventsFails(rows: seq<Row>, colours: map<string, Colour>)
    ensures LoadEvents(rows, colours).Err? <==>
              || (EventsKey !in colours && exists i :: 0 <= i < |rows| && Named(rows[i].name))
              || (BackgroundKey !in colours && exists i :: 0 <= i < |rows| && !Named(rows[i].name))
    ensures LoadEvents(rows, colours).Err? ==>
              LoadEvents(rows, colours).error in {KeyError(EventsKey), KeyError(BackgroundKey)}
  {
  }
}
