/** The projector of map.rs: the generic element tree made into a typed
    `Map` of levels, filler rectangles and a style.

    Every `unwrap` of the original that can panic (a missing node, a
    missing attribute, an attribute of the wrong variant) is a `Failure`
    here, naming what was missing. The same single pass over the root's
    children is kept: a matching child is converted as soon as it is met,
    so a bad level under an early "levels" node fails the projection even
    when a later "levels" node replaces it. */
module Maps {
  import opened Wrappers
  import opened Wire
  import opened Elements

  /** Why a projection stops; each stands for a panic of the original. */
  datatype ProjectError =
    | MissingNode(node: string)      // `levels.unwrap()` / `style.unwrap()` on `None`
    | MissingAttribute(key: string)  // `attributes.get(key).unwrap()` on `None`
    | WrongVariant(key: string)      // `as_int()` / `as_str()` `.unwrap()` on `None`

  datatype Level = Level(x: i32, y: i32, width: u32, height: u32,
                         solids: string, bg: string, name: string, c: i32)

  datatype Filler = Filler(x: i32, y: i32, w: u32, h: u32)

  /** The style carries nothing. */
  datatype Style = Style

  datatype Map = Map(levels: seq<Level>, filler: seq<Filler>, style: Style)

  type Attributes = map<string, Value>

  // ---------------------------------------------------------------
  // Attribute lookups
  // ---------------------------------------------------------------

  /** An attribute that must be present and an `Int`. */
  function IntAttr(a: Attributes, key: string): (r: Result<i32, ProjectError>)
    ensures r.Success? <==> key in a && a[key].Int?
    ensures r.Success? ==> a[key] == Int(r.value)
    ensures r.Failure? ==> r.error == (if key in a then WrongVariant(key) else MissingAttribute(key))
  {
    if key !in a then Failure(MissingAttribute(key))
    else match a[key].AsInt()
      case Some(v) => Success(v)
      case None => Failure(WrongVariant(key))
  }

  /** An attribute that must be present and a `String`. */
  function StrAttr(a: Attributes, key: string): (r: Result<string, ProjectError>)
    ensures r.Success? <==> key in a && a[key].String?
    ensures r.Success? ==> a[key] == String(r.value)
    ensures r.Failure? ==> r.error == (if key in a then WrongVariant(key) else MissingAttribute(key))
  {
    if key !in a then Failure(MissingAttribute(key))
    else match a[key].AsStr()
      case Some(s) => Success(s)
      case None => Failure(WrongVariant(key))
  }

  // ---------------------------------------------------------------
  // The level name
  // ---------------------------------------------------------------

  /** One leading "lvl_" removed, if there is one. */
  function StripLvlPrefix(n: string): (r: string)
    ensures "lvl_" <= n ==> n == "lvl_" + r
    ensures !("lvl_" <= n) ==> r == n
  {
    if "lvl_" <= n then n[4..] else n
  }

  /** The prefix put in front of any name is taken off again. */
  lemma StripAfterPrefix(s: string)
    ensures StripLvlPrefix("lvl_" + s) == s
  {
    assert "lvl_" <= "lvl_" + s;
  }

  /** Only one prefix goes, and a name without it is kept. */
  lemma StripExamples()
    ensures StripLvlPrefix("lvl_a-02") == "a-02"
    ensures StripLvlPrefix("lvl_lvl_b") == "lvl_b"
    ensures StripLvlPrefix("a-02") == "a-02"
    ensures StripLvlPrefix("lvl") == "lvl"
  {
    StripAfterPrefix("a-02");
    StripAfterPrefix("lvl_b");
    assert !("lvl_" <= "a-02") by { assert "a-02"[0] != 'l'; }
  }

  // ---------------------------------------------------------------
  // The last child with a given name
  // ---------------------------------------------------------------

  /** The index of the last child called `name`, if any. */
  function LastNamed(cs: seq<Element>, name: string): (r: Option<nat>)
    ensures r.Some? ==> r.value < |cs| && cs[r.value].name == name
    ensures r.Some? ==> forall j :: r.value < j < |cs| ==> cs[j].name != name
    ensures r.None? <==> forall j :: 0 <= j < |cs| ==> cs[j].name != name
  {
    if cs == [] then None
    else if cs[|cs| - 1].name == name then Some(|cs| - 1)
    else LastNamed(cs[..|cs| - 1], name)
  }

  // ---------------------------------------------------------------
  // Tile grids: the `innerText` of the "solids" and "bg" children
  // ---------------------------------------------------------------

  /** `child.attributes.get("innerText").map(|t| t.as_str().unwrap())`:
      absent is `None`, a non-string fails. */
  function InnerText(c: Element): (r: Result<Option<string>, ProjectError>)
    ensures r.Success? <==> ("innerText" in c.attributes ==> c.attributes["innerText"].String?)
    ensures r.Success? && r.value.Some? <==> "innerText" in c.attributes && c.attributes["innerText"].String?
    ensures r.Success? && r.value.Some? ==> c.attributes["innerText"] == String(r.value.value)
    ensures r.Failure? ==> r.error == WrongVariant("innerText")
  {
    if "innerText" !in c.attributes then Success(None)
    else match c.attributes["innerText"].AsStr()
      case Some(s) => Success(Some(s))
      case None => Failure(WrongVariant("innerText"))
  }

  /** The two accumulators of the loop in `Level::from`. */
  datatype Grids = Grids(solids: Option<string>, bg: Option<string>)

  /** One child of a level: a "solids" child replaces `solids` by its
      text (with `None` when it has none), then a "bg" child `bg`. */
  function GridStep(g: Grids, c: Element): Result<Grids, ProjectError> {
    var g1 :- if c.name == "solids" then (var t :- InnerText(c); Success(g.(solids := t))) else Success(g);
    if c.name == "bg" then (var t :- InnerText(c); Success(g1.(bg := t))) else Success(g1)
  }

  /** The loop over a level's children, from none to all of them. */
  function ScanGrids(cs: seq<Element>): (r: Result<Grids, ProjectError>)
    ensures r.Success? && r.value.solids.Some? ==> exists i :: 0 <= i < |cs| && cs[i].name == "solids"
    ensures r.Success? && r.value.bg.Some? ==> exists i :: 0 <= i < |cs| && cs[i].name == "bg"
  {
    if cs == [] then Success(Grids(None, None))
    else
      var g :- ScanGrids(cs[..|cs| - 1]);
      GridStep(g, cs[|cs| - 1])
  }

  /** A child whose text is read, and which can therefore fail. */
  predicate IsGrid(c: Element) {
    c.name == "solids" || c.name == "bg"
  }

  /** The grid named `name` is the text of the last child so named. */
  predicate LastText(cs: seq<Element>, name: string, t: Option<string>) {
    match LastNamed(cs, name)
    case None => t == None
    case Some(k) => InnerText(cs[k]) == Success(t)
  }

  /** The grid scan fails exactly when some "solids" or "bg" child has a
      non-string `innerText`; otherwise each grid is the text of the last
      child of its name, so an earlier text is lost when a later child of
      the same name has none. */
  lemma {:induction false} ScanGridsMeaning(cs: seq<Element>)
    ensures ScanGrids(cs).Success? <==> forall i :: 0 <= i < |cs| && IsGrid(cs[i]) ==> InnerText(cs[i]).Success?
    ensures ScanGrids(cs).Success? ==> LastText(cs, "solids", ScanGrids(cs).value.solids)
    ensures ScanGrids(cs).Success? ==> LastText(cs, "bg", ScanGrids(cs).value.bg)
  {
    if cs != [] {
      var init := cs[..|cs| - 1];
      ScanGridsMeaning(init);
      assert forall i :: 0 <= i < |init| ==> init[i] == cs[i];
    }
  }

  /** A failure met part-way is the result of the whole scan. */
  lemma {:induction false} ScanGridsFailure(cs: seq<Element>, k: nat)
    requires k <= |cs| && ScanGrids(cs[..k]).Failure?
    ensures ScanGrids(cs) == ScanGrids(cs[..k])
    decreases |cs|
  {
    if k < |cs| {
      var init := cs[..|cs| - 1];
      assert init[..k] == cs[..k];
      ScanGridsFailure(init, k);
    } else {
      assert cs[..k] == cs;
    }
  }

  // ---------------------------------------------------------------
  // Level, Filler, Style
  // ---------------------------------------------------------------

  /** `Level::from`: x, y, width, height, name and c in that order, then
      the grids; width and height are the `as u32` of their i32. */
  function LevelOf(e: Element): (r: Result<Level, ProjectError>)
    ensures r.Success? ==> HasLevelAttributes(e.attributes) && ScanGrids(e.children).Success?
    ensures r.Success? ==> && e.attributes["x"] == Int(r.value.x) && e.attributes["y"] == Int(r.value.y)
                           && e.attributes["c"] == Int(r.value.c)
  {
    var a := e.attributes;
    var x :- IntAttr(a, "x");
    var y :- IntAttr(a, "y");
    var width :- IntAttr(a, "width");
    var height :- IntAttr(a, "height");
    var name :- StrAttr(a, "name");
    var c :- IntAttr(a, "c");
    var g :- ScanGrids(e.children);
    Success(Level(x, y, U32Of(width), U32Of(height), g.solids.GetOr(""), g.bg.GetOr(""),
                  StripLvlPrefix(name), c))
  }

  /** The six attributes a level needs, each of its variant. */
  predicate HasLevelAttributes(a: Attributes) {
    && IntAttr(a, "x").Success? && IntAttr(a, "y").Success?
    && IntAttr(a, "width").Success? && IntAttr(a, "height").Success?
    && StrAttr(a, "name").Success? && IntAttr(a, "c").Success?
  }

  /** A level converts exactly when its six attributes are there with the
      right variants and no grid child has a non-string text; the record
      then holds those values, the name without its "lvl_" and the grids
      ("" when absent). The first attribute checked that fails is the
      error. */
  lemma LevelOfMeaning(e: Element)
    ensures LevelOf(e).Success? <==> HasLevelAttributes(e.attributes) && ScanGrids(e.children).Success?
    ensures LevelOf(e).Success? ==>
              var a, l := e.attributes, LevelOf(e).value;
              && a["x"] == Int(l.x) && a["y"] == Int(l.y) && a["c"] == Int(l.c)
              && l.width == U32Of(a["width"].i) && l.height == U32Of(a["height"].i)
              && l.name == StripLvlPrefix(a["name"].s)
              && l.solids == ScanGrids(e.children).value.solids.GetOr("")
              && l.bg == ScanGrids(e.children).value.bg.GetOr("")
    ensures IntAttr(e.attributes, "x").Failure? ==> LevelOf(e) == Failure(IntAttr(e.attributes, "x").error)
    ensures IntAttr(e.attributes, "x").Success? && IntAttr(e.attributes, "y").Failure? ==>
              LevelOf(e) == Failure(IntAttr(e.attributes, "y").error)
    ensures IntAttr(e.attributes, "x").Success? && IntAttr(e.attributes, "y").Success?
            && IntAttr(e.attributes, "width").Failure? ==>
              LevelOf(e) == Failure(IntAttr(e.attributes, "width").error)
    ensures IntAttr(e.attributes, "x").Success? && IntAttr(e.attributes, "y").Success?
            && IntAttr(e.attributes, "width").Success? && IntAttr(e.attributes, "height").Failure? ==>
              LevelOf(e) == Failure(IntAttr(e.attributes, "height").error)
    ensures IntAttr(e.attributes, "x").Success? && IntAttr(e.attributes, "y").Success?
            && IntAttr(e.attributes, "width").Success? && IntAttr(e.attributes, "height").Success?
            && StrAttr(e.attributes, "name").Failure? ==>
              LevelOf(e) == Failure(StrAttr(e.attributes, "name").error)
    ensures IntAttr(e.attributes, "x").Success? && IntAttr(e.attributes, "y").Success?
            && IntAttr(e.attributes, "width").Success? && IntAttr(e.attributes, "height").Success?
            && StrAttr(e.attributes, "name").Success? && IntAttr(e.attributes, "c").Failure? ==>
              LevelOf(e) == Failure(IntAttr(e.attributes, "c").error)
    ensures HasLevelAttributes(e.attributes) && ScanGrids(e.children).Failure? ==>
              LevelOf(e) == Failure(WrongVariant("innerText"))
  {
    if HasLevelAttributes(e.attributes) && ScanGrids(e.children).Failure? {
      ScanGridsMeaning(e.children);
      var i :| 0 <= i < |e.children| && IsGrid(e.children[i]) && InnerText(e.children[i]).Failure?;
      ScanGridsError(e.children);
    }
  }

  /** The grid scan only ever fails on a text. */
  lemma {:induction false} ScanGridsError(cs: seq<Element>)
    ensures ScanGrids(cs).Failure? ==> ScanGrids(cs).error == WrongVariant("innerText")
  {
    if cs != [] {
      ScanGridsError(cs[..|cs| - 1]);
    }
  }

  /** `Level::from` with its loop: the attribute reads, the name stripped
      in place, then `solids` and `bg` reassigned child by child. */
  method LevelFrom(e: Element) returns (r: Result<Level, ProjectError>)
    ensures r == LevelOf(e)
  {
    var a := e.attributes;
    var x :- IntAttr(a, "x");
    var y :- IntAttr(a, "y");
    var width :- IntAttr(a, "width");
    var height :- IntAttr(a, "height");
    var name :- StrAttr(a, "name");
    var c :- IntAttr(a, "c");
    if "lvl_" <= name {
      name := name[4..];
    }
    var solids: Option<string> := None;
    var bg: Option<string> := None;
    var cs := e.children;
    var i := 0;
    while i < |cs|
      invariant 0 <= i <= |cs|
      invariant ScanGrids(cs[..i]) == Success(Grids(solids, bg))
    {
      assert cs[..i + 1][..i] == cs[..i];
      var child := cs[i];
      if child.name == "solids" {
        var t := InnerText(child);
        if t.Failure? {
          ScanGridsFailure(cs, i + 1);
          return Failure(t.error);
        }
        solids := t.value;
      }
      if child.name == "bg" {
        var t := InnerText(child);
        if t.Failure? {
          ScanGridsFailure(cs, i + 1);
          return Failure(t.error);
        }
        bg := t.value;
      }
      i := i + 1;
    }
    assert cs[..i] == cs;
    r := Success(Level(x, y, U32Of(width), U32Of(height), solids.GetOr(""), bg.GetOr(""), name, c));
  }

  /** `Filler::from`: x, y, w and h, the last two as `u32`. */
  function FillerOf(e: Element): (r: Result<Filler, ProjectError>)
    ensures r.Success? <==> && IntAttr(e.attributes, "x").Success? && IntAttr(e.attributes, "y").Success?
                            && IntAttr(e.attributes, "w").Success? && IntAttr(e.attributes, "h").Success?
    ensures r.Success? ==> && e.attributes["x"] == Int(r.value.x) && e.attributes["y"] == Int(r.value.y)
                           && r.value.w == U32Of(e.attributes["w"].i) && r.value.h == U32Of(e.attributes["h"].i)
  {
    var a := e.attributes;
    var x :- IntAttr(a, "x");
    var y :- IntAttr(a, "y");
    var w :- IntAttr(a, "w");
    var h :- IntAttr(a, "h");
    Success(Filler(x, y, U32Of(w), U32Of(h)))
  }

  /** `Style::from`: whatever the element holds. */
  function StyleOf(e: Element): (r: Style)
    ensures r == Style
  {
    Style
  }

  // ---------------------------------------------------------------
  // Converting every child of a node
  // ---------------------------------------------------------------

  /** `.map(|child| child.into()).collect()`: each conversion in order,
      the first failure being the result. */
  function Collect<A, B>(f: A -> Result<B, ProjectError>, xs: seq<A>): (r: Result<seq<B>, ProjectError>)
    ensures r.Success? ==> |r.value| == |xs|
  {
    if xs == [] then Success([])
    else
      var init :- Collect(f, xs[..|xs| - 1]);
      var y :- f(xs[|xs| - 1]);
      Success(init + [y])
  }

  /** Collecting succeeds exactly when every conversion does, and then
      keeps length and order; otherwise it fails with the error of the
      first conversion that fails. */
  lemma {:induction false} CollectMeaning<A, B>(f: A -> Result<B, ProjectError>, xs: seq<A>)
    ensures Collect(f, xs).Success? <==> forall i :: 0 <= i < |xs| ==> f(xs[i]).Success?
    ensures Collect(f, xs).Success? ==>
              |Collect(f, xs).value| == |xs|
              && forall i :: 0 <= i < |xs| ==> Collect(f, xs).value[i] == f(xs[i]).value
    ensures forall k :: 0 <= k < |xs| && f(xs[k]).Failure? && (forall j :: 0 <= j < k ==> f(xs[j]).Success?) ==>
              Collect(f, xs) == Failure(f(xs[k]).error)
  {
    if xs != [] {
      var init := xs[..|xs| - 1];
      CollectMeaning(f, init);
      assert forall i :: 0 <= i < |init| ==> init[i] == xs[i];
    }
  }

  /** The levels of a "levels" node, each converted with `LevelFrom`. */
  method CollectLevels(cs: seq<Element>) returns (r: Result<seq<Level>, ProjectError>)
    ensures r == Collect(LevelOf, cs)
  {
    var levels: seq<Level> := [];
    for i := 0 to |cs|
      invariant Collect(LevelOf, cs[..i]) == Success(levels)
    {
      assert cs[..i + 1][..i] == cs[..i];
      var l := LevelFrom(cs[i]);
      if l.Failure? {
        CollectFailure(LevelOf, cs, i + 1);
        return Failure(l.error);
      }
      levels := levels + [l.value];
    }
    assert cs[..|cs|] == cs;
    r := Success(levels);
  }

  /** A failure met part-way is the result of the whole collection. */
  lemma {:induction false} CollectFailure<A, B>(f: A -> Result<B, ProjectError>, xs: seq<A>, k: nat)
    requires k <= |xs| && Collect(f, xs[..k]).Failure?
    ensures Collect(f, xs) == Collect(f, xs[..k])
    decreases |xs|
  {
    if k < |xs| {
      var init := xs[..|xs| - 1];
      assert init[..k] == xs[..k];
      CollectFailure(f, init, k);
    } else {
      assert xs[..k] == xs;
    }
  }

  // ---------------------------------------------------------------
  // The map
  // ---------------------------------------------------------------

  /** The three accumulators of the loop in `Map::try_from`. */
  datatype Found = Found(levels: Option<seq<Level>>, filler: Option<seq<Filler>>, style: Option<Style>)

  /** One child of the root: "levels" and "Filler" are converted and
      replace what was found before, "Style" likewise, the rest skipped. */
  function ScanStep(f: Found, c: Element): Result<Found, ProjectError> {
    if c.name == "levels" then
      var ls :- Collect(LevelOf, c.children);
      Success(f.(levels := Some(ls)))
    else if c.name == "Filler" then
      var fs :- Collect(FillerOf, c.children);
      Success(f.(filler := Some(fs)))
    else if c.name == "Style" then
      Success(f.(style := Some(StyleOf(c))))
    else
      Success(f)
  }

  /** The loop over the root's children, from none to all of them. */
  function Scan(cs: seq<Element>): (r: Result<Found, ProjectError>)
    ensures r.Success? && r.value.levels.Some? ==> exists i :: 0 <= i < |cs| && cs[i].name == "levels"
    ensures r.Success? && r.value.filler.Some? ==> exists i :: 0 <= i < |cs| && cs[i].name == "Filler"
    ensures r.Success? && r.value.style.Some? ==> exists i :: 0 <= i < |cs| && cs[i].name == "Style"
  {
    if cs == [] then Success(Found(None, None, None))
    else
      var f :- Scan(cs[..|cs| - 1]);
      ScanStep(f, cs[|cs| - 1])
  }

  /** `Map::try_from`: missing levels fail before a missing style; a
      missing filler is empty. */
  function Project(root: Element): (r: Result<Map, ProjectError>)
    ensures r.Success? ==> exists i :: 0 <= i < |root.children| && root.children[i].name == "levels"
    ensures r.Success? ==> exists i :: 0 <= i < |root.children| && root.children[i].name == "Style"
  {
    var f :- Scan(root.children);
    if f.levels.None? then Failure(MissingNode("levels"))
    else if f.style.None? then Failure(MissingNode("Style"))
    else Success(Map(f.levels.value, f.filler.GetOr([]), f.style.value))
  }

  /** A root child whose conversion, if any, succeeds. */
  predicate Convertible(c: Element) {
    && (c.name == "levels" ==> Collect(LevelOf, c.children).Success?)
    && (c.name == "Filler" ==> Collect(FillerOf, c.children).Success?)
  }

  /** Why a root child does not convert. */
  function ChildError(c: Element): ProjectError
    requires !Convertible(c)
  {
    if c.name == "levels" then Collect(LevelOf, c.children).error
    else Collect(FillerOf, c.children).error
  }

  /** What a root node of a given name was converted to, when it is there. */
  predicate LastLevels(cs: seq<Element>, ls: Option<seq<Level>>) {
    match LastNamed(cs, "levels")
    case None => ls == None
    case Some(k) => Collect(LevelOf, cs[k].children).Success? && ls == Some(Collect(LevelOf, cs[k].children).value)
  }

  predicate LastFiller(cs: seq<Element>, fs: Option<seq<Filler>>) {
    match LastNamed(cs, "Filler")
    case None => fs == None
    case Some(k) => Collect(FillerOf, cs[k].children).Success? && fs == Some(Collect(FillerOf, cs[k].children).value)
  }

  /** The scan succeeds exactly when every "levels" and "Filler" child
      converts. */
  lemma {:induction false} ScanSucceeds(cs: seq<Element>)
    ensures Scan(cs).Success? <==> forall i :: 0 <= i < |cs| ==> Convertible(cs[i])
  {
    if cs != [] {
      var init := cs[..|cs| - 1];
      ScanSucceeds(init);
      assert forall i :: 0 <= i < |init| ==> init[i] == cs[i];
    }
  }

  /** A failing scan reports the first child that does not convert. */
  lemma {:induction false} ScanFirstError(cs: seq<Element>, k: nat)
    requires k < |cs| && !Convertible(cs[k])
    requires forall j :: 0 <= j < k ==> Convertible(cs[j])
    ensures Scan(cs) == Failure(ChildError(cs[k]))
  {
    var init := cs[..|cs| - 1];
    if k < |cs| - 1 {
      ScanFirstError(init, k);
    } else {
      ScanSucceeds(init);
    }
  }

  /** A successful scan holds the levels of the last "levels" child. */
  lemma {:induction false} ScanLastLevels(cs: seq<Element>)
    requires Scan(cs).Success?
    ensures LastLevels(cs, Scan(cs).value.levels)
  {
    if cs != [] {
      var init := cs[..|cs| - 1];
      ScanLastLevels(init);
      if cs[|cs| - 1].name != "levels" {
        assert LastNamed(cs, "levels") == LastNamed(init, "levels");
        assert Scan(cs).value.levels == Scan(init).value.levels;
      }
    }
  }

  /** A successful scan holds the rectangles of the last "Filler" child. */
  lemma {:induction false} ScanLastFiller(cs: seq<Element>)
    requires Scan(cs).Success?
    ensures LastFiller(cs, Scan(cs).value.filler)
  {
    if cs != [] {
      var init := cs[..|cs| - 1];
      ScanLastFiller(init);
      if cs[|cs| - 1].name != "Filler" {
        assert LastNamed(cs, "Filler") == LastNamed(init, "Filler");
        assert Scan(cs).value.filler == Scan(init).value.filler;
      }
    }
  }

  /** A successful scan has a style exactly when there is a "Style" child. */
  lemma {:induction false} ScanLastStyle(cs: seq<Element>)
    requires Scan(cs).Success?
    ensures Scan(cs).value.style.Some? <==> LastNamed(cs, "Style").Some?
  {
    if cs != [] {
      ScanLastStyle(cs[..|cs| - 1]);
    }
  }

  /** A successful scan holds, for each name, the conversion of the last
      child of that name. */
  lemma ScanLast(cs: seq<Element>)
    requires Scan(cs).Success?
    ensures LastLevels(cs, Scan(cs).value.levels)
    ensures LastFiller(cs, Scan(cs).value.filler)
    ensures Scan(cs).value.style.Some? <==> LastNamed(cs, "Style").Some?
  {
    ScanLastLevels(cs);
    ScanLastFiller(cs);
    ScanLastStyle(cs);
  }

  /** The projection succeeds exactly when every "levels" and "Filler"
      child converts and there is a "levels" and a "Style" child. Its
      levels are those of the last "levels" child, its filler those of the
      last "Filler" child or none. */
  lemma ProjectMeaning(root: Element)
    ensures var cs := root.children;
            Project(root).Success? <==>
              (forall i :: 0 <= i < |cs| ==> Convertible(cs[i]))
              && LastNamed(cs, "levels").Some? && LastNamed(cs, "Style").Some?
    ensures Project(root).Success? ==>
              var cs, m := root.children, Project(root).value;
              && m.levels == Collect(LevelOf, cs[LastNamed(cs, "levels").value].children).value
              && (LastNamed(cs, "Filler").None? ==> m.filler == [])
              && (LastNamed(cs, "Filler").Some? ==>
                    m.filler == Collect(FillerOf, cs[LastNamed(cs, "Filler").value].children).value)
  {
    ScanSucceeds(root.children);
    if Scan(root.children).Success? {
      ScanLast(root.children);
    }
  }

  /** With every child convertible, a missing "levels" node is reported
      before a missing "Style", and a missing "Style" alone is reported. */
  lemma ProjectMissingNodes(root: Element)
    requires forall i :: 0 <= i < |root.children| ==> Convertible(root.children[i])
    ensures LastNamed(root.children, "levels").None? ==> Project(root) == Failure(MissingNode("levels"))
    ensures LastNamed(root.children, "levels").Some? && LastNamed(root.children, "Style").None? ==>
              Project(root) == Failure(MissingNode("Style"))
  {
    ScanSucceeds(root.children);
    ScanLast(root.children);
  }

  /** `Map::try_from` with its loop over the root's children, reassigning
      the three `Option`s. */
  method TryFrom(root: Element) returns (r: Result<Map, ProjectError>)
    ensures r == Project(root)
  {
    var levels: Option<seq<Level>> := None;
    var filler: Option<seq<Filler>> := None;
    var style: Option<Style> := None;
    var cs := root.children;
    for i := 0 to |cs|
      invariant Scan(cs[..i]) == Success(Found(levels, filler, style))
    {
      assert cs[..i + 1][..i] == cs[..i];
      var child := cs[i];
      if child.name == "levels" {
        var ls := CollectLevels(child.children);
        if ls.Failure? {
          ScanFailure(cs, i + 1);
          return Failure(ls.error);
        }
        levels := Some(ls.value);
      } else if child.name == "Filler" {
        var fs := Collect(FillerOf, child.children);
        if fs.Failure? {
          ScanFailure(cs, i + 1);
          return Failure(fs.error);
        }
        filler := Some(fs.value);
      } else if child.name == "Style" {
        style := Some(StyleOf(child));
      }
    }
    assert cs[..|cs|] == cs;
    if levels.None? {
      return Failure(MissingNode("levels"));
    }
    if style.None? {
      return Failure(MissingNode("Style"));
    }
    r := Success(Map(levels.value, filler.GetOr([]), style.value));
  }

  /** A failure met part-way is the result of the whole scan. */
  lemma {:induction false} ScanFailure(cs: seq<Element>, k: nat)
    requires k <= |cs| && Scan(cs[..k]).Failure?
    ensures Scan(cs) == Scan(cs[..k])
    decreases |cs|
  {
    if k < |cs| {
      var init := cs[..|cs| - 1];
      assert init[..k] == cs[..k];
      ScanFailure(init, k);
    } else {
      assert cs[..k] == cs;
    }
  }
}
