/** The session text of lib.rs: `key: value` lines matched one by one in
    a fixed order. The text arrives as its lines; the fetch that produces it
    is not modelled, and the parse of the two coordinates into `f32` is a
    parameter `parse` of the reader, with `F` standing for the float type. */
module Session {
  import opened Wrappers

  // ---------------------------------------------------------------
  // `data_assert_key_value`
  // ---------------------------------------------------------------

  /** The separator ": " starts at index `j` of `s`. */
  predicate SepAt(s: string, j: nat) {
    j + 2 <= |s| && s[j] == ':' && s[j + 1] == ' '
  }

  /** The first separator at or after `from`. */
  function FindSep(s: string, from: nat): (r: Option<nat>)
    ensures r.Some? ==> from <= r.value && SepAt(s, r.value)
                        && forall j :: from <= j < r.value ==> !SepAt(s, j)
    ensures r.None? ==> forall j :: from <= j < |s| ==> !SepAt(s, j)
    decreases |s| - from
  {
    if from + 2 > |s| then None
    else if SepAt(s, from) then Some(from)
    else FindSep(s, from + 1)
  }

  /** `str::split_once(": ")`: the text before the first separator and
      the text after it. */
  function SplitOnce(s: string): (r: Option<(string, string)>)
    ensures r.None? <==> forall j :: 0 <= j < |s| ==> !SepAt(s, j)
    ensures r.Some? ==> s == r.value.0 + ": " + r.value.1
    ensures r.Some? ==> forall j :: 0 <= j < |r.value.0| ==> !SepAt(s, j)
  {
    match FindSep(s, 0)
    case None => None
    case Some(j) =>
      assert s == s[..j] + ": " + s[j + 2..];
      Some((s[..j], s[j + 2..]))
  }

  /** The value of a `key: value` line whose key is `key`. */
  function KeyValue(line: string, key: string): (r: Option<string>)
    ensures r.Some? <==> SplitOnce(line).Some? && SplitOnce(line).value.0 == key
    ensures r.Some? ==> line == key + ": " + r.value
  {
    var (k, v) :- SplitOnce(line);
    if k != key then None else Some(v)
  }

  /** A key without the separator in it. */
  predicate PlainKey(key: string) {
    forall j :: 0 <= j < |key| ==> !SepAt(key, j)
  }

  /** The line `key: v` gives back `v`, whatever `v` holds, separators
      included: only the first one splits. */
  lemma KeyValueOfLine(key: string, v: string)
    requires PlainKey(key)
    ensures KeyValue(key + ": " + v, key) == Some(v)
  {
    var line := key + ": " + v;
    assert SepAt(line, |key|);
    assert forall j :: 0 <= j < |key| ==> !SepAt(line, j) by {
      forall j | 0 <= j < |key|
        ensures !SepAt(line, j)
      {
        if j + 1 < |key| {
          assert !SepAt(key, j);
        }
      }
    }
    var r := SplitOnce(line);
    assert r.Some?;
    var k := r.value.0;
    assert SepAt(line, |k|);
    assert |k| == |key|;
    assert k == line[..|key|];
  }

  /** A line without a separator, and a line with another key, give
      nothing; a value may itself hold the separator. */
  lemma KeyValueExamples()
    ensures KeyValue("Area", "Area") == None
    ensures KeyValue("Side: A", "Area") == None
    ensures KeyValue("Area: a: b", "Area") == Some("a: b")
  {
    assert !SepAt("Area", 0) && !SepAt("Area", 1) && !SepAt("Area", 2) && !SepAt("Area", 3);
    assert FindSep("Area", 0) == None;
    assert PlainKey("Area");
    KeyValueOfLine("Area", "a: b");
    assert SepAt("Side: A", 4);
    assert FindSep("Side: A", 0) == Some(4);
  }

  // ---------------------------------------------------------------
  // `SessionData`
  // ---------------------------------------------------------------

  datatype SessionData<F> = SessionData(area: string, side: string, level: string, mapBin: string,
                                        x: F, y: F, tp: string)

  /** The line at index `i`, matched against `key`; `None` when there
      are not that many lines. */
  function Field(lines: seq<string>, i: nat, key: string): (r: Option<string>)
    ensures r.Some? <==> i < |lines| && KeyValue(lines[i], key).Some?
    ensures r.Some? ==> lines[i] == key + ": " + r.value
  {
    if i < |lines| then KeyValue(lines[i], key) else None
  }

  /** The keys, in the order the lines must have them. */
  const Keys: seq<string> := ["Area", "Side", "Level", "MapBin", "X", "Y", "TP"]

  /** `SessionData::get` after the fetch: seven lines with the seven keys
      in order, the coordinates parsed by `parse`. Lines after the seventh
      are never looked at. */
  function ParseSession<F>(lines: seq<string>, parse: string -> Option<F>): (r: Option<SessionData<F>>)
    ensures r.Some? ==> 7 <= |lines|
    ensures r.Some? ==> && lines[0] == "Area: " + r.value.area && lines[1] == "Side: " + r.value.side
                        && lines[2] == "Level: " + r.value.level && lines[3] == "MapBin: " + r.value.mapBin
                        && lines[6] == "TP: " + r.value.tp
  {
    var area :- Field(lines, 0, "Area");
    var side :- Field(lines, 1, "Side");
    var level :- Field(lines, 2, "Level");
    var mapBin :- Field(lines, 3, "MapBin");
    var x :- Field(lines, 4, "X");
    var y :- Field(lines, 5, "Y");
    var tp :- Field(lines, 6, "TP");
    var xv :- parse(x);
    var yv :- parse(y);
    Some(SessionData(area, side, level, mapBin, xv, yv, tp))
  }

  /** The seven lines of a session whose coordinates are still text. */
  function Render(area: string, side: string, level: string, mapBin: string,
                  x: string, y: string, tp: string): (ls: seq<string>)
    ensures |ls| == |Keys|
  {
    ["Area: " + area, "Side: " + side, "Level: " + level, "MapBin: " + mapBin,
     "X: " + x, "Y: " + y, "TP: " + tp]
  }

  lemma KeysArePlain()
    ensures forall i :: 0 <= i < |Keys| ==> PlainKey(Keys[i])
  {
    forall i, j | 0 <= i < |Keys| && 0 <= j < |Keys[i]|
      ensures !SepAt(Keys[i], j)
    {
    }
  }

  /** The first seven lines carry the seven keys in order. */
  predicate Keyed(lines: seq<string>) {
    |lines| >= |Keys| && forall i :: 0 <= i < |Keys| ==> KeyValue(lines[i], Keys[i]).Some?
  }

  /** The parse succeeds exactly when the first seven lines carry the
      seven keys in order and both coordinates parse. */
  lemma ParseSessionSucceeds<F>(lines: seq<string>, parse: string -> Option<F>)
    ensures ParseSession(lines, parse).Some? <==>
              Keyed(lines)
              && parse(KeyValue(lines[4], "X").value).Some?
              && parse(KeyValue(lines[5], "Y").value).Some?
  {
    if Keyed(lines) {
      assert Field(lines, 0, "Area").Some? && Field(lines, 1, "Side").Some?;
      assert Field(lines, 2, "Level").Some? && Field(lines, 3, "MapBin").Some?;
      assert Field(lines, 4, "X").Some? && Field(lines, 5, "Y").Some? && Field(lines, 6, "TP").Some?;
    }
  }

  /** A session read is the rendering of its first seven lines, whatever
      follows them. */
  lemma ParseSessionLines<F>(lines: seq<string>, parse: string -> Option<F>)
    requires ParseSession(lines, parse).Some?
    ensures var s := ParseSession(lines, parse).value;
            exists x, y :: lines[..7] == Render(s.area, s.side, s.level, s.mapBin, x, y, s.tp)
                           && parse(x) == Some(s.x) && parse(y) == Some(s.y)
  {
    var s := ParseSession(lines, parse).value;
    var area, side, level := Field(lines, 0, "Area").value, Field(lines, 1, "Side").value, Field(lines, 2, "Level").value;
    var mapBin, x, y := Field(lines, 3, "MapBin").value, Field(lines, 4, "X").value, Field(lines, 5, "Y").value;
    var tp := Field(lines, 6, "TP").value;
    assert s == SessionData(area, side, level, mapBin, parse(x).value, parse(y).value, tp);
    var rendered := Render(area, side, level, mapBin, x, y, tp);
    assert lines[..7] == rendered by {
      assert rendered == ["Area: " + area, "Side: " + side, "Level: " + level, "MapBin: " + mapBin,
                          "X: " + x, "Y: " + y, "TP: " + tp];
      assert forall i :: 0 <= i < 7 ==> lines[..7][i] == rendered[i];
    }
  }

  /** A line `key: v` at index `i` is read as `v`. */
  lemma FieldOfLine(ls: seq<string>, i: nat, key: string, v: string)
    requires i < |ls| && ls[i] == key + ": " + v && PlainKey(key)
    ensures Field(ls, i, key) == Some(v)
  {
    KeyValueOfLine(key, v);
  }

  /** Rendered lines are read back, with anything after them ignored. */
  lemma RenderRoundTrip<F>(area: string, side: string, level: string, mapBin: string,
                           x: string, y: string, tp: string, rest: seq<string>, parse: string -> Option<F>)
    requires parse(x).Some? && parse(y).Some?
    ensures ParseSession(Render(area, side, level, mapBin, x, y, tp) + rest, parse)
            == Some(SessionData(area, side, level, mapBin, parse(x).value, parse(y).value, tp))
  {
    KeysArePlain();
    assert Keys == ["Area", "Side", "Level", "MapBin", "X", "Y", "TP"];
    var ls := Render(area, side, level, mapBin, x, y, tp) + rest;
    FieldOfLine(ls, 0, "Area", area);
    FieldOfLine(ls, 1, "Side", side);
    FieldOfLine(ls, 2, "Level", level);
    FieldOfLine(ls, 3, "MapBin", mapBin);
    FieldOfLine(ls, 4, "X", x);
    FieldOfLine(ls, 5, "Y", y);
    FieldOfLine(ls, 6, "TP", tp);
  }

  /** `SessionData::default`, with `zero` the float 0.0. */
  function Default<F>(zero: F): (s: SessionData<F>)
    ensures s.side == "'?'" && s.tp == "''"
    ensures s.area == "" && s.level == "" && s.mapBin == ""
    ensures s.x == zero && s.y == zero
  {
    SessionData("", "'?'", "", "", zero, zero, "''")
  }

  /** The default session is what its own lines read back as. */
  lemma DefaultRoundTrip<F>(zero: F, parse: string -> Option<F>)
    requires parse("0") == Some(zero)
    ensures ParseSession(Render("", "'?'", "", "", "0", "0", "''"), parse) == Some(Default(zero))
  {
    RenderRoundTrip("", "'?'", "", "", "0", "0", "''", [], parse);
    assert Render("", "'?'", "", "", "0", "0", "''") + [] == Render("", "'?'", "", "", "0", "0", "''");
  }
}
