/** `flatten_errors`: a tree of validation errors becomes a flat list with dotted attribute names. */
module ErrorTree {
  import opened Decimal

  datatype Option<+T> = None | Some(value: T)

  /**
   An error message: `str(detail)`, its code, its error key, and whether it is REST framework's own
   ErrorDetail class, which is the one `flatten_errors` tests list items against.
   */
  datatype ErrorDetail = ErrorDetail(text: string, code: string, errorKey: Option<string>, framework: bool)

  datatype Entry = Entry(key: string, value: Detail)

  datatype Detail = Leaf(e: ErrorDetail) | List(items: seq<Detail>) | Dict(entries: seq<Entry>)

  datatype Error = Error(code: string, detail: string, errorKey: Option<string>, attr: Option<string>)

  /** Python truth of an optional string. */
  predicate Truthy(s: Option<string>) {
    s.Some? && s.value != ""
  }

  function Report(e: ErrorDetail, attr: Option<string>): Error {
    Error(e.code, e.text, if Truthy(e.errorKey) then e.errorKey else None, attr)
  }

  /** A list item reported under its list's own name. */
  predicate Inline(d: Detail) {
    d.Leaf? && d.e.framework
  }

  function Extend(attr: Option<string>, segment: string): Option<string> {
    Some(if Truthy(attr) then attr.value + "." + segment else segment)
  }

  /** The number the first list item that is not inline gets. */
  function FirstNumber(index: Option<nat>): nat {
    if index.None? then 0 else index.value + 1
  }

  /** `flatten_errors`. Its recursions on the rest of a list or dict are FlattenItems and FlattenEntries. */
  function Flatten(d: Detail, attr: Option<string>, index: Option<nat>): seq<Error> {
    match d
    case Leaf(e) => if e.text == "" then [] else [Report(e, attr)]
    case List(items) => FlattenItems(items, attr, index)
    case Dict(entries) => FlattenEntries(entries, attr)
  }

  function FlattenItems(items: seq<Detail>, attr: Option<string>, index: Option<nat>): seq<Error> {
    if items == [] then []
    else if Inline(items[0]) then
      Flatten(items[0], attr, index) + FlattenItems(items[1..], attr, index)
    else
      var number := FirstNumber(index);
      Flatten(items[0], Extend(attr, Str(number)), Some(number)) + FlattenItems(items[1..], attr, Some(number))
  }

  function FlattenEntries(entries: seq<Entry>, attr: Option<string>): seq<Error> {
    if entries == [] then []
    else Flatten(entries[0].value, Extend(attr, entries[0].key), None) + FlattenEntries(entries[1..], attr)
  }

  // ----- The leaves and where they are

  type Path = seq<string>

  /**
   The non-empty messages in order, each with the path to the list or slot that holds it: an inline
   message is held by its list, any other by its own slot. List positions are written in decimal.
   */
  function Placed(d: Detail, path: Path): seq<(ErrorDetail, Path)> {
    match d
    case Leaf(e) => if e.text == "" then [] else [(e, path)]
    case List(items) => PlacedItems(items, path, 0)
    case Dict(entries) => PlacedEntries(entries, path)
  }

  function PlacedItems(items: seq<Detail>, path: Path, position: nat): seq<(ErrorDetail, Path)> {
    if items == [] then []
    else
      Placed(items[0], if Inline(items[0]) then path else path + [Str(position)])
      + PlacedItems(items[1..], path, position + 1)
  }

  function PlacedEntries(entries: seq<Entry>, path: Path): seq<(ErrorDetail, Path)> {
    if entries == [] then []
    else Placed(entries[0].value, path + [entries[0].key]) + PlacedEntries(entries[1..], path)
  }

  /** The error carries the message's code, its text, and its key where that is not empty. */
  predicate Carries(error: Error, e: ErrorDetail) {
    && error.code == e.code
    && error.detail == e.text
    && (if e.errorKey == None || e.errorKey == Some("") then error.errorKey == None else error.errorKey == e.errorKey)
  }

  /** The errors carry exactly the placed messages, in order, whatever the attributes. */
  predicate SameMessages(errors: seq<Error>, placed: seq<(ErrorDetail, Path)>) {
    |errors| == |placed| && forall i | 0 <= i < |errors| :: Carries(errors[i], placed[i].0)
  }

  /** Nothing is lost, added or reordered: one error for each non-empty message, for every detail. */
  lemma {:induction false} LeavesConserved(d: Detail, attr: Option<string>, index: Option<nat>, path: Path)
    ensures SameMessages(Flatten(d, attr, index), Placed(d, path))
    decreases d, 0
  {
    match d {
      case Leaf(e) =>
      case List(items) => ItemsConserved(items, attr, index, path, 0);
      case Dict(entries) => EntriesConserved(entries, attr, path);
    }
  }

  lemma {:induction false} ItemsConserved(items: seq<Detail>, attr: Option<string>, index: Option<nat>, path: Path, position: nat)
    ensures SameMessages(FlattenItems(items, attr, index), PlacedItems(items, path, position))
    decreases items, 0
  {
    if items != [] {
      var p := if Inline(items[0]) then path else path + [Str(position)];
      var number := FirstNumber(index);
      if Inline(items[0]) {
        LeavesConserved(items[0], attr, index, p);
        ItemsConserved(items[1..], attr, index, path, position + 1);
      } else {
        LeavesConserved(items[0], Extend(attr, Str(number)), Some(number), p);
        ItemsConserved(items[1..], attr, Some(number), path, position + 1);
      }
    }
  }

  lemma {:induction false} EntriesConserved(entries: seq<Entry>, attr: Option<string>, path: Path)
    ensures SameMessages(FlattenEntries(entries, attr), PlacedEntries(entries, path))
    decreases entries, 0
  {
    if entries != [] {
      LeavesConserved(entries[0].value, Extend(attr, entries[0].key), None, path + [entries[0].key]);
      EntriesConserved(entries[1..], attr, path);
    }
  }

  // ----- Attribute names as rendered paths

  predicate GoodSegment(s: string) {
    s != "" && '.' !in s
  }

  predicate GoodPath(p: Path) {
    forall i | 0 <= i < |p| :: GoodSegment(p[i])
  }

  /** Every dict key is non-empty and free of the separator. */
  predicate GoodKeys(d: Detail) {
    match d
    case Leaf(_) => true
    case List(items) => forall i | 0 <= i < |items| :: GoodKeys(items[i])
    case Dict(entries) => forall i | 0 <= i < |entries| :: GoodSegment(entries[i].key) && GoodKeys(entries[i].value)
  }

  /** The attribute name of a path: its segments joined by the separator. */
  function Join(p: Path): string
    requires p != []
  {
    if |p| == 1 then p[0] else Join(p[..|p| - 1]) + "." + p[|p| - 1]
  }

  function Render(p: Path): Option<string> {
    if p == [] then None else Some(Join(p))
  }

  lemma {:induction false} JoinNonEmpty(p: Path)
    requires p != [] && GoodPath(p)
    ensures Join(p) != ""
  {
    if |p| > 1 {
      JoinNonEmpty(p[..|p| - 1]);
    }
  }

  lemma ExtendRenders(p: Path, segment: string)
    requires GoodPath(p)
    ensures Extend(Render(p), segment) == Render(p + [segment])
  {
    if p != [] {
      JoinNonEmpty(p);
      assert (p + [segment])[..|p|] == p;
    }
  }

  lemma NumeralIsGood(n: nat)
    ensures GoodSegment(Str(n))
  {
  }

  /** The last separator of a string is where its last segment begins. */
  lemma LastSegment(a: string, s: string, b: string, t: string)
    requires a + "." + s == b + "." + t && '.' !in s && '.' !in t
    ensures a == b && s == t
  {
    var u := a + "." + s;
    var v := b + "." + t;
    assert u[|a|] == '.' && v[|b|] == '.';
    assert |a| == |b|;
    assert a == u[..|a|] && b == v[..|b|];
    assert s == u[|a| + 1..] && t == v[|b| + 1..];
  }

  /** Splitting undoes joining: an attribute name determines its path. */
  lemma {:induction false} JoinInjective(p: Path, q: Path)
    requires p != [] && q != [] && GoodPath(p) && GoodPath(q)
    requires Join(p) == Join(q)
    ensures p == q
  {
    var p', q' := p[..|p| - 1], q[..|q| - 1];
    if |p| > 1 && |q| > 1 {
      LastSegment(Join(p'), p[|p| - 1], Join(q'), q[|q| - 1]);
      JoinInjective(p', q');
      assert p == p' + [p[|p| - 1]] && q == q' + [q[|q| - 1]];
    }
    assert |p| > 1 ==> Join(p)[|Join(p')|] == '.';
    assert |q| > 1 ==> Join(q)[|Join(q')|] == '.';
  }

  // ----- The paths that attribute names spell out

  /** The path behind each error's attribute name, with list items numbered as flatten_errors does. */
  function Labels(d: Detail, path: Path, index: Option<nat>): seq<Path> {
    match d
    case Leaf(e) => if e.text == "" then [] else [path]
    case List(items) => LabelItems(items, path, FirstNumber(index))
    case Dict(entries) => LabelEntries(entries, path)
  }

  function LabelItems(items: seq<Detail>, path: Path, number: nat): seq<Path> {
    if items == [] then []
    else if Inline(items[0]) then
      Labels(items[0], path, None) + LabelItems(items[1..], path, number)
    else
      Labels(items[0], path + [Str(number)], Some(number)) + LabelItems(items[1..], path, number + 1)
  }

  function LabelEntries(entries: seq<Entry>, path: Path): seq<Path> {
    if entries == [] then []
    else Labels(entries[0].value, path + [entries[0].key], None) + LabelEntries(entries[1..], path)
  }

  /** Attribute names are the renderings of these paths. */
  ghost predicate Spell(errors: seq<Error>, labels: seq<Path>, path: Path) {
    && |errors| == |labels|
    && forall i | 0 <= i < |errors| ::
         errors[i].attr == Render(labels[i]) && GoodPath(labels[i]) && path <= labels[i]
  }

  lemma SpellConcat(a: seq<Error>, la: seq<Path>, p: Path, b: seq<Error>, lb: seq<Path>, path: Path)
    requires Spell(a, la, p) && Spell(b, lb, path) && path <= p
    ensures Spell(a + b, la + lb, path)
  {
  }

  lemma {:induction false} AttributesSpellLabels(d: Detail, path: Path, index: Option<nat>)
    requires GoodKeys(d) && GoodPath(path)
    ensures Spell(Flatten(d, Render(path), index), Labels(d, path, index), path)
    decreases d, 0
  {
    match d {
      case Leaf(e) =>
      case List(items) => ItemsSpellLabels(items, path, index);
      case Dict(entries) => EntriesSpellLabels(entries, path);
    }
  }

  lemma NothingSpelled(path: Path)
    ensures Spell([], [], path)
  {
  }

  lemma {:induction false} ItemsSpellLabels(items: seq<Detail>, path: Path, index: Option<nat>)
    requires GoodPath(path) && forall i | 0 <= i < |items| :: GoodKeys(items[i])
    ensures Spell(FlattenItems(items, Render(path), index), LabelItems(items, path, FirstNumber(index)), path)
    decreases items, 0
  {
    hide Spell, GoodSegment, Str, Render, Extend;
    if items == [] {
      NothingSpelled(path);
    } else {
      var number := FirstNumber(index);
      var rest := items[1..];
      if Inline(items[0]) {
        AttributesSpellLabels(items[0], path, index);
        ItemsSpellLabels(rest, path, index);
        SpellConcat(Flatten(items[0], Render(path), index), Labels(items[0], path, index), path,
                    FlattenItems(rest, Render(path), index), LabelItems(rest, path, number), path);
      } else {
        var p := path + [Str(number)];
        ExtendRenders(path, Str(number));
        NumeralIsGood(number);
        AttributesSpellLabels(items[0], p, Some(number));
        ItemsSpellLabels(rest, path, Some(number));
        SpellConcat(Flatten(items[0], Render(p), Some(number)), Labels(items[0], p, Some(number)), p,
                    FlattenItems(rest, Render(path), Some(number)), LabelItems(rest, path, number + 1), path);
      }
    }
  }

  lemma {:induction false} EntriesSpellLabels(entries: seq<Entry>, path: Path)
    requires GoodPath(path) && forall i | 0 <= i < |entries| :: GoodSegment(entries[i].key) && GoodKeys(entries[i].value)
    ensures Spell(FlattenEntries(entries, Render(path)), LabelEntries(entries, path), path)
    decreases entries, 0
  {
    if entries != [] {
      ExtendRenders(path, entries[0].key);
      hide Spell;
      var p := path + [entries[0].key];
      AttributesSpellLabels(entries[0].value, p, None);
      EntriesSpellLabels(entries[1..], path);
      SpellConcat(Flatten(entries[0].value, Render(p), None), Labels(entries[0].value, p, None), p,
                  FlattenEntries(entries[1..], Render(path)), LabelEntries(entries[1..], path), path);
    }
  }

  // ----- When the names lead back to the messages

  predicate HasMessage(d: Detail) {
    match d
    case Leaf(e) => e.text != ""
    case List(items) => exists i | 0 <= i < |items| :: HasMessage(items[i])
    case Dict(entries) => exists i | 0 <= i < |entries| :: HasMessage(entries[i].value)
  }

  /**
   Whether numbering agrees with positions wherever a message depends on it. In a list, an item's
   position exceeds its number by the inline messages before it less the number the list starts at
   (0, or one more than the list's own number when it stands directly in another list).
   */
  predicate Aligned(d: Detail, index: Option<nat>)
    decreases d, 0
  {
    match d
    case Leaf(_) => true
    case List(items) => AlignedItems(items, 0 - FirstNumber(index), FirstNumber(index))
    case Dict(entries) => forall i | 0 <= i < |entries| :: Aligned(entries[i].value, None)
  }

  predicate AlignedItems(items: seq<Detail>, ahead: int, number: nat)
    decreases items, 0
  {
    if items == [] then true
    else if Inline(items[0]) then AlignedItems(items[1..], ahead + 1, number)
    else
      && (HasMessage(items[0]) ==> ahead == 0)
      && Aligned(items[0], Some(number))
      && AlignedItems(items[1..], ahead, number + 1)
  }

  predicate SamePaths(labels: seq<Path>, placed: seq<(ErrorDetail, Path)>) {
    |labels| == |placed| && forall i | 0 <= i < |labels| :: labels[i] == placed[i].1
  }

  /** Labels and places correspond one to one and stay under the path they start from. */
  ghost predicate Under(labels: seq<Path>, labelRoot: Path, placed: seq<(ErrorDetail, Path)>, placeRoot: Path, some: bool) {
    && |labels| == |placed| && (|labels| > 0 <==> some)
    && (forall i | 0 <= i < |labels| :: labelRoot <= labels[i])
    && (forall i | 0 <= i < |placed| :: placeRoot <= placed[i].1)
  }

  lemma UnderConcat(a: seq<Path>, p': Path, c: seq<(ErrorDetail, Path)>, q': Path, x: bool,
                    b: seq<Path>, p: Path, d: seq<(ErrorDetail, Path)>, q: Path, y: bool)
    requires Under(a, p', c, q', x) && Under(b, p, d, q, y) && p <= p' && q <= q'
    ensures Under(a + b, p, c + d, q, x || y)
  {
  }

  predicate SomeMessage(items: seq<Detail>) {
    exists i | 0 <= i < |items| :: HasMessage(items[i])
  }

  lemma SomeMessageStep(items: seq<Detail>)
    requires items != []
    ensures SomeMessage(items) <==> HasMessage(items[0]) || SomeMessage(items[1..])
  {
    assert items == [items[0]] + items[1..];
  }

  lemma {:induction false} StayUnder(d: Detail, p: Path, q: Path, index: Option<nat>)
    ensures Under(Labels(d, p, index), p, Placed(d, q), q, HasMessage(d))
    decreases d, 0
  {
    match d {
      case Leaf(e) =>
      case List(items) => ItemsStayUnder(items, p, q, FirstNumber(index), 0);
      case Dict(entries) => EntriesStayUnder(entries, p, q);
    }
  }

  lemma {:induction false} ItemsStayUnder(items: seq<Detail>, p: Path, q: Path, number: nat, position: nat)
    ensures Under(LabelItems(items, p, number), p, PlacedItems(items, q, position), q, SomeMessage(items))
    decreases items, 0
  {
    if items != [] {
      hide Under, SomeMessage, HasMessage, Str;
      var rest := items[1..];
      SomeMessageStep(items);
      if Inline(items[0]) {
        StayUnder(items[0], p, q, None);
        ItemsStayUnder(rest, p, q, number, position + 1);
        UnderConcat(Labels(items[0], p, None), p, Placed(items[0], q), q, HasMessage(items[0]),
                    LabelItems(rest, p, number), p, PlacedItems(rest, q, position + 1), q, SomeMessage(rest));
      } else {
        var p', q' := p + [Str(number)], q + [Str(position)];
        StayUnder(items[0], p', q', Some(number));
        ItemsStayUnder(rest, p, q, number + 1, position + 1);
        UnderConcat(Labels(items[0], p', Some(number)), p', Placed(items[0], q'), q', HasMessage(items[0]),
                    LabelItems(rest, p, number + 1), p, PlacedItems(rest, q, position + 1), q, SomeMessage(rest));
      }
    }
  }

  lemma NothingUnder(p: Path, q: Path)
    ensures Under([], p, [], q, false)
  {
  }

  lemma SomeEntryStep(entries: seq<Entry>)
    requires entries != []
    ensures (exists i | 0 <= i < |entries| :: HasMessage(entries[i].value))
            <==> HasMessage(entries[0].value) || exists i | 0 <= i < |entries[1..]| :: HasMessage(entries[1..][i].value)
  {
    hide HasMessage;
    assert entries == [entries[0]] + entries[1..];
  }

  lemma {:induction false} EntriesStayUnder(entries: seq<Entry>, p: Path, q: Path)
    ensures Under(LabelEntries(entries, p), p, PlacedEntries(entries, q), q,
                  exists i | 0 <= i < |entries| :: HasMessage(entries[i].value))
    decreases entries, 0
  {
    hide Under, HasMessage;
    if entries == [] {
      NothingUnder(p, q);
    } else {
      var e, rest := entries[0], entries[1..];
      var p', q' := p + [e.key], q + [e.key];
      StayUnder(e.value, p', q', None);
      EntriesStayUnder(rest, p, q);
      SomeEntryStep(entries);
      UnderConcat(Labels(e.value, p', None), p', Placed(e.value, q'), q', HasMessage(e.value),
                  LabelEntries(rest, p), p, PlacedEntries(rest, q), q,
                  exists i | 0 <= i < |rest| :: HasMessage(rest[i].value));
    }
  }

  lemma SamePathsConcat(a: seq<Path>, b: seq<Path>, c: seq<(ErrorDetail, Path)>, d: seq<(ErrorDetail, Path)>)
    requires |a| == |c|
    ensures SamePaths(a + b, c + d) <==> SamePaths(a, c) && SamePaths(b, d)
  {
    if SamePaths(a + b, c + d) {
      assert forall i | 0 <= i < |a| :: a[i] == (a + b)[i] && c[i] == (c + d)[i];
      assert forall i | 0 <= i < |b| :: b[i] == (a + b)[|a| + i] && d[i] == (c + d)[|a| + i];
    }
  }

  /** Each label is the place of its message exactly when numbering is aligned. */
  lemma {:induction false} LabelsArePlaces(d: Detail, path: Path, index: Option<nat>)
    ensures SamePaths(Labels(d, path, index), Placed(d, path)) <==> Aligned(d, index)
    decreases d, 0
  {
    match d {
      case Leaf(e) =>
      case List(items) => ItemLabelsArePlaces(items, path, FirstNumber(index), 0);
      case Dict(entries) => EntryLabelsArePlaces(entries, path);
    }
  }

  /** In a list whose next position and number are given, labels are places exactly when aligned. */
  ghost predicate ItemsMatch(items: seq<Detail>, path: Path, number: nat, position: nat) {
    SamePaths(LabelItems(items, path, number), PlacedItems(items, path, position))
    <==> AlignedItems(items, position - number, number)
  }

  lemma {:induction false} ItemLabelsArePlaces(items: seq<Detail>, path: Path, number: nat, position: nat)
    ensures ItemsMatch(items, path, number, position)
    decreases items, 0
  {
    if items != [] {
      hide ItemsMatch, SamePaths, Inline, HasMessage;
      if Inline(items[0]) {
        ItemLabelsArePlaces(items[1..], path, number, position + 1);
        InlineStep(items, path, number, position);
      } else {
        ItemLabelsArePlaces(items[1..], path, number + 1, position + 1);
        NumberedLabels(items[0], path, number, position);
        NumberedStep(items, path, number, position);
      }
    }
  }

  lemma InlineStep(items: seq<Detail>, path: Path, number: nat, position: nat)
    requires items != [] && Inline(items[0])
    requires ItemsMatch(items[1..], path, number, position + 1)
    ensures ItemsMatch(items, path, number, position)
  {
    hide SamePaths, HasMessage, Str;
    var item, rest := items[0], items[1..];
    InlineLabel(item, path);
    SamePathsConcat(Labels(item, path, None), LabelItems(rest, path, number),
                    Placed(item, path), PlacedItems(rest, path, position + 1));
  }

  lemma NumberedStep(items: seq<Detail>, path: Path, number: nat, position: nat)
    requires items != [] && !Inline(items[0])
    requires var labels, placed := Labels(items[0], path + [Str(number)], Some(number)), Placed(items[0], path + [Str(position)]);
             && |labels| == |placed|
             && (SamePaths(labels, placed) <==> (HasMessage(items[0]) ==> position == number) && Aligned(items[0], Some(number)))
    requires ItemsMatch(items[1..], path, number + 1, position + 1)
    ensures ItemsMatch(items, path, number, position)
  {
    hide SamePaths, HasMessage, Str, Inline;
    var item, rest := items[0], items[1..];
    var labels, placed := Labels(item, path + [Str(number)], Some(number)), Placed(item, path + [Str(position)]);
    SamePathsConcat(labels, LabelItems(rest, path, number + 1), placed, PlacedItems(rest, path, position + 1));
  }

  lemma InlineLabel(item: Detail, path: Path)
    requires Inline(item)
    ensures |Labels(item, path, None)| == |Placed(item, path)|
    ensures SamePaths(Labels(item, path, None), Placed(item, path))
  {
  }

  lemma {:induction false} NumberedLabels(item: Detail, path: Path, number: nat, position: nat)
    ensures var labels, placed := Labels(item, path + [Str(number)], Some(number)), Placed(item, path + [Str(position)]);
            && |labels| == |placed|
            && (SamePaths(labels, placed) <==> (HasMessage(item) ==> position == number) && Aligned(item, Some(number)))
    decreases item, 1
  {
    hide SamePaths, HasMessage, Aligned, Str;
    StayUnder(item, path + [Str(number)], path + [Str(position)], Some(number));
    if number == position {
      LabelsArePlaces(item, path + [Str(number)], Some(number));
    } else {
      Misnumbered(item, path, number, position);
    }
  }

  /** Under a wrong number no label is a place. */
  lemma Misnumbered(item: Detail, path: Path, number: nat, position: nat)
    requires number != position
    ensures var p, q := path + [Str(number)], path + [Str(position)];
            SamePaths(Labels(item, p, Some(number)), Placed(item, q)) <==> !HasMessage(item)
    ensures !HasMessage(item) ==> Aligned(item, Some(number))
  {
    var p, q := path + [Str(number)], path + [Str(position)];
    StayUnder(item, p, q, Some(number));
    if HasMessage(item) {
      var l, place := Labels(item, p, Some(number))[0], Placed(item, q)[0].1;
      assert l[|path|] == p[|path|] == Str(number) && place[|path|] == q[|path|] == Str(position);
      if l == place {
        StrInjective(number, position);
      }
    } else {
      SilentIsAligned(item, Some(number));
    }
  }

  lemma {:induction false} SilentIsAligned(d: Detail, index: Option<nat>)
    requires !HasMessage(d)
    ensures Aligned(d, index)
    decreases d, 0
  {
    match d {
      case Leaf(e) =>
      case List(items) => SilentItemsAligned(items, 0 - FirstNumber(index), FirstNumber(index));
      case Dict(entries) =>
        forall i | 0 <= i < |entries|
          ensures Aligned(entries[i].value, None)
        {
          SilentIsAligned(entries[i].value, None);
        }
    }
  }

  lemma {:induction false} SilentItemsAligned(items: seq<Detail>, ahead: int, number: nat)
    requires forall i | 0 <= i < |items| :: !HasMessage(items[i])
    ensures AlignedItems(items, ahead, number)
    decreases items, 0
  {
    if items != [] {
      if Inline(items[0]) {
        SilentItemsAligned(items[1..], ahead + 1, number);
      } else {
        SilentIsAligned(items[0], Some(number));
        SilentItemsAligned(items[1..], ahead, number + 1);
      }
    }
  }

  lemma {:induction false} EntryLabelsArePlaces(entries: seq<Entry>, path: Path)
    ensures SamePaths(LabelEntries(entries, path), PlacedEntries(entries, path))
            <==> forall i | 0 <= i < |entries| :: Aligned(entries[i].value, None)
    decreases entries, 0
  {
    if entries != [] {
      var p := path + [entries[0].key];
      LabelsArePlaces(entries[0].value, p, None);
      EntryLabelsArePlaces(entries[1..], path);
      StayUnder(entries[0].value, p, p, None);
      SamePathsConcat(Labels(entries[0].value, p, None), LabelEntries(entries[1..], path),
                      Placed(entries[0].value, p), PlacedEntries(entries[1..], path));
      assert entries == [entries[0]] + entries[1..];
    }
  }

  /** Every error of a whole detail carries the name of the place that holds its message. */
  ghost predicate NamesArePlaces(d: Detail) {
    var errors, placed := Flatten(d, None, None), Placed(d, []);
    |errors| == |placed| && forall i | 0 <= i < |errors| ::
      Carries(errors[i], placed[i].0) && errors[i].attr == Render(placed[i].1)
  }

  /** Exactly the aligned details are reported under the names of their messages' places. */
  lemma NamesArePlacesExactly(d: Detail)
    requires GoodKeys(d)
    ensures NamesArePlaces(d) <==> Aligned(d, None)
  {
    LeavesConserved(d, None, None, []);
    AttributesSpellLabels(d, [], None);
    LabelsArePlaces(d, [], None);
    PlacesAreGood(d, []);
    var errors, labels, placed := Flatten(d, None, None), Labels(d, [], None), Placed(d, []);
    forall i | 0 <= i < |errors|
      ensures errors[i].attr == Render(placed[i].1) <==> labels[i] == placed[i].1
    {
      if labels[i] != [] && placed[i].1 != [] && Join(labels[i]) == Join(placed[i].1) {
        JoinInjective(labels[i], placed[i].1);
      }
    }
  }

  lemma {:induction false} PlacesAreGood(d: Detail, path: Path)
    requires GoodKeys(d) && GoodPath(path)
    ensures forall i | 0 <= i < |Placed(d, path)| :: GoodPath(Placed(d, path)[i].1)
    decreases d, 0
  {
    match d {
      case Leaf(e) =>
      case List(items) => ItemPlacesAreGood(items, path, 0);
      case Dict(entries) => EntryPlacesAreGood(entries, path);
    }
  }

  lemma {:induction false} ItemPlacesAreGood(items: seq<Detail>, path: Path, position: nat)
    requires GoodPath(path) && forall i | 0 <= i < |items| :: GoodKeys(items[i])
    ensures forall i | 0 <= i < |PlacedItems(items, path, position)| :: GoodPath(PlacedItems(items, path, position)[i].1)
    decreases items, 0
  {
    if items != [] {
      NumeralIsGood(position);
      PlacesAreGood(items[0], if Inline(items[0]) then path else path + [Str(position)]);
      ItemPlacesAreGood(items[1..], path, position + 1);
    }
  }

  lemma {:induction false} EntryPlacesAreGood(entries: seq<Entry>, path: Path)
    requires GoodPath(path) && forall i | 0 <= i < |entries| :: GoodSegment(entries[i].key) && GoodKeys(entries[i].value)
    ensures forall i | 0 <= i < |PlacedEntries(entries, path)| :: GoodPath(PlacedEntries(entries, path)[i].1)
    decreases entries, 0
  {
    if entries != [] {
      PlacesAreGood(entries[0].value, path + [entries[0].key]);
      EntryPlacesAreGood(entries[1..], path);
    }
  }

  predicate NoListInList(d: Detail) {
    match d
    case Leaf(_) => true
    case List(items) => forall i | 0 <= i < |items| :: !items[i].List? && NoListInList(items[i])
    case Dict(entries) => forall i | 0 <= i < |entries| :: NoListInList(entries[i].value)
  }

  /** In no list does an inline message stand before an item that has a message and is numbered. */
  predicate InlineLast(d: Detail) {
    match d
    case Leaf(_) => true
    case List(items) =>
      && (forall i | 0 <= i < |items| :: InlineLast(items[i]))
      && (forall i, j | 0 <= i < j < |items| && Inline(items[i]) && HasMessage(items[j]) :: Inline(items[j]))
    case Dict(entries) => forall i | 0 <= i < |entries| :: InlineLast(entries[i].value)
  }

  /** Without a list directly inside a list, alignment is just that. */
  lemma {:induction false} AlignedWithoutNesting(d: Detail, index: Option<nat>)
    requires NoListInList(d) && (d.List? ==> index.None?)
    ensures Aligned(d, index) <==> InlineLast(d)
    decreases d, 0
  {
    match d {
      case Leaf(e) =>
      case List(items) => AlignedItemsWithoutNesting(items, 0, 0);
      case Dict(entries) =>
        forall i | 0 <= i < |entries|
          ensures Aligned(entries[i].value, None) <==> InlineLast(entries[i].value)
        {
          AlignedWithoutNesting(entries[i].value, None);
        }
    }
  }

  lemma {:induction false} AlignedItemsWithoutNesting(items: seq<Detail>, ahead: nat, number: nat)
    requires forall i | 0 <= i < |items| :: !items[i].List? && NoListInList(items[i])
    ensures AlignedItems(items, ahead, number) <==>
              && (forall i | 0 <= i < |items| :: InlineLast(items[i]))
              && (forall i, j | 0 <= i < j < |items| && Inline(items[i]) && HasMessage(items[j]) :: Inline(items[j]))
              && (ahead > 0 ==> forall j | 0 <= j < |items| && HasMessage(items[j]) :: Inline(items[j]))
    decreases items, 0
  {
    if items != [] {
      var rest := items[1..];
      assert items == [items[0]] + rest;
      if Inline(items[0]) {
        AlignedItemsWithoutNesting(rest, ahead + 1, number);
      } else {
        AlignedWithoutNesting(items[0], Some(number));
        AlignedItemsWithoutNesting(rest, ahead, number + 1);
      }
    }
  }

  // ----- Following a path back

  predicate UniqueKeys(d: Detail) {
    match d
    case Leaf(_) => true
    case List(items) => forall i | 0 <= i < |items| :: UniqueKeys(items[i])
    case Dict(entries) =>
      && (forall i | 0 <= i < |entries| :: UniqueKeys(entries[i].value))
      && (forall i, j | 0 <= i < j < |entries| :: entries[i].key != entries[j].key)
  }

  /** Looks a path up: dict keys by name, list items by the decimal of their position. */
  function Resolve(d: Detail, path: Path): Option<Detail>
    decreases d, 0
  {
    if path == [] then Some(d)
    else match d
         case Leaf(_) => None
         case List(items) => ResolveItems(items, 0, path)
         case Dict(entries) => ResolveEntries(entries, path)
  }

  function ResolveItems(items: seq<Detail>, position: nat, path: Path): Option<Detail>
    requires path != []
    decreases items, 0
  {
    if items == [] then None
    else if path[0] == Str(position) then Resolve(items[0], path[1..])
    else ResolveItems(items[1..], position + 1, path)
  }

  function ResolveEntries(entries: seq<Entry>, path: Path): Option<Detail>
    requires path != []
    decreases entries, 0
  {
    if entries == [] then None
    else if path[0] == entries[0].key then Resolve(entries[0].value, path[1..])
    else ResolveEntries(entries[1..], path)
  }

  /** A place holds a message: it is the message's own slot, or the list it stands in. */
  predicate Holds(place: Option<Detail>, e: ErrorDetail) {
    place.Some? && (place.value == Leaf(e) || (place.value.List? && Leaf(e) in place.value.items))
  }

  /** A path below a given one, relative to it. */
  function Below(path: Path, p: Path): Path
    requires path <= p
  {
    p[|path|..]
  }

  lemma {:induction false} PlacesHold(d: Detail, path: Path)
    requires UniqueKeys(d)
    ensures forall i | 0 <= i < |Placed(d, path)| ::
              path <= Placed(d, path)[i].1 && Holds(Resolve(d, Below(path, Placed(d, path)[i].1)), Placed(d, path)[i].0)
    decreases d, 0
  {
    match d {
      case Leaf(e) =>
      case List(items) =>
        ItemPlacesHold(items, path, 0);
        var placed := PlacedItems(items, path, 0);
        forall i | 0 <= i < |placed|
          ensures path <= placed[i].1 && Holds(Resolve(d, Below(path, placed[i].1)), placed[i].0)
        {
          assert HeldByItems(items, 0, path, placed[i]);
        }
      case Dict(entries) => EntryPlacesHold(entries, path);
    }
  }

  /** The message is inline in the list, or held by an item of it. */
  predicate HeldByItems(items: seq<Detail>, position: nat, path: Path, placed: (ErrorDetail, Path)) {
    && path <= placed.1
    && if path == placed.1 then Leaf(placed.0) in items
       else Holds(ResolveItems(items, position, Below(path, placed.1)), placed.0)
  }

  /** Below path, a place is numbered with some position from the given one on. */
  ghost predicate NumberedFrom(position: nat, path: Path, p: Path) {
    path < p ==> exists k: nat :: position <= k && p[|path|] == Str(k)
  }

  lemma {:induction false} ItemPlacesHold(items: seq<Detail>, path: Path, position: nat)
    requires forall i | 0 <= i < |items| :: UniqueKeys(items[i])
    ensures forall i | 0 <= i < |PlacedItems(items, path, position)| ::
              && HeldByItems(items, position, path, PlacedItems(items, path, position)[i])
              && NumberedFrom(position, path, PlacedItems(items, path, position)[i].1)
    decreases items, 0
  {
    if items != [] {
      var item, rest := items[0], items[1..];
      var p := if Inline(item) then path else path + [Str(position)];
      PlacesHold(item, p);
      ItemPlacesHold(rest, path, position + 1);
      var first, others := Placed(item, p), PlacedItems(rest, path, position + 1);
      var placed := PlacedItems(items, path, position);
      assert placed == first + others;
      forall i | 0 <= i < |placed|
        ensures HeldByItems(items, position, path, placed[i])
        ensures NumberedFrom(position, path, placed[i].1)
      {
        if i < |first| {
          assert placed[i] == first[i];
          if Inline(item) {
            assert first == [(item.e, path)];
          } else {
            var q := Below(path, placed[i].1);
            assert q[0] == Str(position) && q[1..] == Below(p, placed[i].1);
          }
        } else {
          assert placed[i] == others[i - |first|];
          if path < placed[i].1 {
            var k: nat :| position + 1 <= k && placed[i].1[|path|] == Str(k);
            assert Below(path, placed[i].1)[0] == Str(k);
            if Str(k) == Str(position) {
              StrInjective(k, position);
            }
          }
        }
      }
    }
  }

  lemma {:induction false} EntryPlacesHold(entries: seq<Entry>, path: Path)
    requires UniqueKeys(Dict(entries))
    ensures forall i | 0 <= i < |PlacedEntries(entries, path)| ::
              var (e, p) := PlacedEntries(entries, path)[i];
              && path < p && (exists k :: 0 <= k < |entries| && p[|path|] == entries[k].key)
              && Holds(ResolveEntries(entries, Below(path, p)), e)
    decreases entries, 0
  {
    if entries != [] {
      var entry, rest := entries[0], entries[1..];
      var p := path + [entry.key];
      PlacesHold(entry.value, p);
      EntryPlacesHold(rest, path);
      var first, others := Placed(entry.value, p), PlacedEntries(rest, path);
      var placed := PlacedEntries(entries, path);
      assert placed == first + others;
      forall i | 0 <= i < |placed|
        ensures path < placed[i].1 && (exists k :: 0 <= k < |entries| && placed[i].1[|path|] == entries[k].key)
        ensures Holds(ResolveEntries(entries, Below(path, placed[i].1)), placed[i].0)
      {
        if i < |first| {
          assert placed[i] == first[i];
          var q := Below(path, placed[i].1);
          assert q[0] == entries[0].key && q[1..] == Below(p, placed[i].1);
        } else {
          assert placed[i] == others[i - |first|];
          var k :| 0 <= k < |rest| && placed[i].1[|path|] == rest[k].key;
          assert rest[k] == entries[k + 1];
          assert Below(path, placed[i].1)[0] != entry.key;
        }
      }
    }
  }

  /**
   Following an error's name in the original detail leads to the list or slot that holds its
   message: for every aligned detail, and so for every detail with no list directly in a list and
   no inline message before a numbered one.
   */
  lemma ErrorsLeadBack(d: Detail)
    requires GoodKeys(d) && UniqueKeys(d)
    requires Aligned(d, None) || (NoListInList(d) && InlineLast(d))
    ensures NamesArePlaces(d)
    ensures forall i | 0 <= i < |Placed(d, [])| :: Holds(Resolve(d, Placed(d, [])[i].1), Placed(d, [])[i].0)
  {
    if NoListInList(d) {
      AlignedWithoutNesting(d, None);
    }
    NamesArePlacesExactly(d);
    PlacesHold(d, []);
    assert forall p: Path {:trigger Below([], p)} :: Below([], p) == p;
  }

  // ----- Lists and dicts by their first member

  lemma FirstItem(items: seq<Detail>, attr: Option<string>, index: Option<nat>)
    requires items != [] && !Inline(items[0])
    ensures var number := if index.None? then 0 else index.value + 1;
            FlattenItems(items, attr, index)
            == Flatten(items[0], Extend(attr, Str(number)), Some(number)) + FlattenItems(items[1..], attr, Some(number))
  {
  }

  lemma OneItem(item: Detail, attr: Option<string>, index: Option<nat>)
    requires !Inline(item)
    ensures var number := if index.None? then 0 else index.value + 1;
            Flatten(List([item]), attr, index) == Flatten(item, Extend(attr, Str(number)), Some(number))
  {
    FirstItem([item], attr, index);
    assert [item][1..] == [];
  }

  lemma OneEntry(key: string, value: Detail, attr: Option<string>, index: Option<nat>)
    ensures Flatten(Dict([Entry(key, value)]), attr, index) == Flatten(value, Extend(attr, key), None)
  {
    var entries := [Entry(key, value)];
    assert entries[1..] == [] && FlattenEntries(entries[1..], attr) == [];
    assert FlattenEntries(entries, attr) == Flatten(value, Extend(attr, key), None) + [];
  }

  /** A list of one message is reported under the list's own name. */
  lemma OneMessage(e: ErrorDetail, attr: Option<string>, index: Option<nat>)
    requires e.framework && e.text != ""
    ensures Flatten(List([Leaf(e)]), attr, index) == [Report(e, attr)]
  {
    var items := [Leaf(e)];
    assert items[1..] == [] && FlattenItems(items[1..], attr, index) == [];
    assert FlattenItems(items, attr, index) == Flatten(items[0], attr, index) + [];
  }

  /** One of the package's own message class is numbered like a nested item. */
  lemma OwnMessage(e: ErrorDetail, attr: Option<string>)
    requires !e.framework && e.text != ""
    ensures Flatten(List([Leaf(e)]), attr, None) == [Report(e, Some(if Truthy(attr) then attr.value + "." + "0" else "0"))]
  {
    OneItem(Leaf(e), attr, None);
    assert Str(0) == "0";
  }
}
