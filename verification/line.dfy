/**
 The line aggregate: a named, coloured line with its two terminal stations
 and their distance. Creating a line stores the five supplied values; a
 later update rewrites only the name and the colour.
 */
module Lines {
  import opened Domain

  /** A line. `id` is assigned by persistence and is absent on a line that
      has only been constructed. */
  datatype Line = Line(
    id: Option<int>,
    name: string,
    color: string,
    upStation: StationId,
    downStation: StationId,
    distance: int)

  /** A freshly constructed line holding exactly the supplied values. */
  function NewLine(name: string, color: string, upStation: StationId, downStation: StationId, distance: int): (l: Line)
    ensures l.id.None?
    ensures l.name == name && l.color == color
    ensures l.upStation == upStation && l.downStation == downStation
    ensures l.distance == distance
  {
    Line(None, name, color, upStation, downStation, distance)
  }

  /** Renames and recolours `l`; every other field keeps its value. */
  function UpdateLine(l: Line, name: string, color: string): (r: Line)
    ensures r.name == name && r.color == color
    ensures r.id == l.id
    ensures r.upStation == l.upStation && r.downStation == l.downStation
    ensures r.distance == l.distance
  {
    l.(name := name, color := color)
  }

  /** Updating twice with the same values is the same as updating once. */
  lemma UpdateLineIdempotent(l: Line, name: string, color: string)
    ensures UpdateLine(UpdateLine(l, name, color), name, color) == UpdateLine(l, name, color)
  {
  }

  /** Of two successive updates only the second one is visible. */
  lemma UpdateLineLastWins(l: Line, name1: string, color1: string, name2: string, color2: string)
    ensures UpdateLine(UpdateLine(l, name1, color1), name2, color2) == UpdateLine(l, name2, color2)
  {
  }

  /** Updating a line to its own name and colour leaves it unchanged. */
  lemma UpdateLineWithCurrentValues(l: Line)
    ensures UpdateLine(l, l.name, l.color) == l
  {
  }

  /** Updating a new line is the same as constructing it with the new name
      and colour. */
  lemma UpdateNewLine(name: string, color: string, upStation: StationId, downStation: StationId,
                      distance: int, name': string, color': string)
    ensures UpdateLine(NewLine(name, color, upStation, downStation, distance), name', color')
            == NewLine(name', color', upStation, downStation, distance)
  {
  }
}
