/**
 `get_flat_serializer_fields`: the field names the API schema documents, and how they relate to
 the attribute names of the errors that arrive at run time.
 */
module ErrorSchema {
  import opened Decimal
  import opened ErrorTree

  const NON_FIELD_ERRORS := "non_field_errors"
  const LIST_INDEX := "INDEX"
  const DICT_KEY := "KEY"

  /** A serializer or field instance, as far as the traversal tells them apart. */
  datatype Field =
    | ListSerializer(name: Option<string>, child: Field)
    | Polymorphic(serializers: seq<Field>)
    | Serializer(name: Option<string>, fields: seq<Field>)
    | ListField(name: Option<string>, child: Field)
    | DictField(name: Option<string>, child: Field)
    | Plain(name: Option<string>)

  datatype InputDataField = InputDataField(name: Option<string>, field: Field)

  /** `get_prefix`. */
  function GetPrefix(prefix: Option<string>, name: Option<string>): Option<string> {
    if Truthy(prefix) && Truthy(name) then Some(prefix.value + "." + name.value)
    else if Truthy(prefix) then prefix
    else name
  }

  /** `get_flat_serializer_fields` of one field. */
  function FlatFields(f: Field, prefix: Option<string>): seq<InputDataField> {
    match f
    case ListSerializer(name, child) =>
      var own := GetPrefix(prefix, name);
      [InputDataField(GetPrefix(own, Some(NON_FIELD_ERRORS)), f)] + FlatFields(child, GetPrefix(own, Some(LIST_INDEX)))
    case Polymorphic(serializers) => FlatFieldsOf(serializers, prefix)
    case Serializer(name, fields) =>
      var own := GetPrefix(prefix, name);
      [InputDataField(GetPrefix(own, Some(NON_FIELD_ERRORS)), f)] + FlatFieldsOf(fields, own)
    case ListField(name, child) =>
      var own := GetPrefix(prefix, name);
      [InputDataField(own, f)] + FlatFields(child, GetPrefix(own, Some(LIST_INDEX)))
    case DictField(name, child) =>
      var own := GetPrefix(prefix, name);
      [InputDataField(own, f)] + FlatFields(child, GetPrefix(own, Some(DICT_KEY)))
    case Plain(name) => [InputDataField(GetPrefix(prefix, name), f)]
  }

  /** `get_flat_serializer_fields` of a list of fields. */
  function FlatFieldsOf(fs: seq<Field>, prefix: Option<string>): seq<InputDataField> {
    if fs == [] then [] else FlatFields(fs[0], prefix) + FlatFieldsOf(fs[1..], prefix)
  }

  // ----- Field names as templates for attribute paths

  /** A part of a documented name: a field name, any list index, or any dict key. */
  datatype Slot = Lit(name: string) | AnyIndex | AnyKey

  type Template = seq<Slot>

  function SlotText(s: Slot): string {
    match s
    case Lit(name) => name
    case AnyIndex => LIST_INDEX
    case AnyKey => DICT_KEY
  }

  function Texts(t: Template): Path {
    seq(|t|, i requires 0 <= i < |t| => SlotText(t[i]))
  }

  ghost predicate IsNumeral(s: string) {
    exists n: nat :: s == Str(n)
  }

  /** A list index, or the name that stands for one. */
  ghost predicate IsIndex(s: string) {
    IsNumeral(s) || s == LIST_INDEX
  }

  ghost predicate FitsSlot(s: Slot, segment: string) {
    match s
    case Lit(name) => segment == name
    case AnyIndex => IsIndex(segment)
    case AnyKey => true
  }

  ghost predicate Fits(t: Template, p: Path) {
    |t| == |p| && forall i | 0 <= i < |t| :: FitsSlot(t[i], p[i])
  }

  function NameOf(f: Field): Option<string> {
    if f.Polymorphic? then None else f.name
  }

  function Own(f: Field): Template {
    if Truthy(NameOf(f)) then [Lit(NameOf(f).value)] else []
  }

  function Under(head: Template, ts: seq<Template>): seq<Template> {
    seq(|ts|, i requires 0 <= i < |ts| => head + ts[i])
  }

  /** The templates of a field below its own name. */
  function Body(f: Field): seq<Template> {
    match f
    case ListSerializer(_, child) => [[Lit(NON_FIELD_ERRORS)]] + Under([AnyIndex] + Own(child), Body(child))
    case Polymorphic(serializers) => BodyOf(serializers)
    case Serializer(_, fields) => [[Lit(NON_FIELD_ERRORS)]] + BodyOf(fields)
    case ListField(_, child) => [[]] + Under([AnyIndex] + Own(child), Body(child))
    case DictField(_, child) => [[]] + Under([AnyKey] + Own(child), Body(child))
    case Plain(_) => [[]]
  }

  function BodyOf(fs: seq<Field>): seq<Template> {
    if fs == [] then [] else Under(Own(fs[0]), Body(fs[0])) + BodyOf(fs[1..])
  }

  /** A bound field tree: members are named, distinct and not the non-field key; children are unnamed. */
  predicate Bound(f: Field) {
    match f
    case ListSerializer(_, child) => !Truthy(NameOf(child)) && Bound(child)
    case Polymorphic(_) => false
    case Serializer(_, fields) =>
      && (forall i | 0 <= i < |fields| :: Bound(fields[i]) && IsMemberName(NameOf(fields[i])))
      && (forall i, j | 0 <= i < j < |fields| :: NameOf(fields[i]) != NameOf(fields[j]))
    case ListField(_, child) => !Truthy(NameOf(child)) && Bound(child)
    case DictField(_, child) => !Truthy(NameOf(child)) && Bound(child)
    case Plain(_) => true
  }

  predicate IsMemberName(name: Option<string>) {
    name.Some? && GoodSegment(name.value) && name.value != NON_FIELD_ERRORS
  }

  /** The prefix handed down stands for the given template; a falsy prefix stands for none. */
  predicate StandsFor(prefix: Option<string>, t: Template) {
    if t == [] then !Truthy(prefix) else prefix == Render(Texts(t))
  }

  predicate GoodTemplate(t: Template) {
    GoodPath(Texts(t))
  }

  lemma PrefixExtends(prefix: Option<string>, t: Template, s: Slot)
    requires StandsFor(prefix, t) && GoodTemplate(t) && GoodSegment(SlotText(s))
    ensures GetPrefix(prefix, Some(SlotText(s))) == Render(Texts(t + [s]))
    ensures StandsFor(GetPrefix(prefix, Some(SlotText(s))), t + [s]) && GoodTemplate(t + [s])
  {
    assert Texts(t + [s]) == Texts(t) + [SlotText(s)];
    ExtendRenders(Texts(t), SlotText(s));
    if t != [] {
      JoinNonEmpty(Texts(t));
    }
  }

  lemma PrefixOwn(prefix: Option<string>, t: Template, f: Field)
    requires StandsFor(prefix, t) && GoodTemplate(t)
    requires !f.Polymorphic? && (Truthy(f.name) ==> GoodSegment(f.name.value))
    ensures StandsFor(GetPrefix(prefix, f.name), t + Own(f)) && GoodTemplate(t + Own(f))
  {
    if Truthy(f.name) {
      PrefixExtends(prefix, t, Lit(f.name.value));
    } else {
      assert t + Own(f) == t;
      if t != [] {
        JoinNonEmpty(Texts(t));
      }
    }
  }

  /** The documented names render the templates, in order. */
  ghost predicate Documents(fields: seq<InputDataField>, head: Template, ts: seq<Template>) {
    && |fields| == |ts|
    && forall i | 0 <= i < |ts| ::
         head + ts[i] != [] ==> fields[i].name == Render(Texts(head + ts[i])) && GoodTemplate(head + ts[i])
  }

  lemma DocumentsConcat(a: seq<InputDataField>, ts: seq<Template>, b: seq<InputDataField>, us: seq<Template>, head: Template)
    requires Documents(a, head, ts) && Documents(b, head, us)
    ensures Documents(a + b, head, ts + us)
  {
    hide GoodTemplate;
    forall i | 0 <= i < |ts + us|
      ensures head + (ts + us)[i] != [] ==>
                (a + b)[i].name == Render(Texts(head + (ts + us)[i])) && GoodTemplate(head + (ts + us)[i])
    {
      if i < |ts| {
        assert (ts + us)[i] == ts[i] && (a + b)[i] == a[i];
      } else {
        assert (ts + us)[i] == us[i - |ts|] && (a + b)[i] == b[i - |ts|];
      }
    }
  }

  lemma DocumentsUnder(a: seq<InputDataField>, head: Template, mid: Template, ts: seq<Template>)
    requires Documents(a, head + mid, ts)
    ensures Documents(a, head, Under(mid, ts))
  {
    forall i | 0 <= i < |ts|
      ensures head + Under(mid, ts)[i] == (head + mid) + ts[i]
    {
    }
  }

  lemma {:induction false} FieldDocuments(f: Field, prefix: Option<string>, head: Template)
    requires Bound(f) && StandsFor(prefix, head) && GoodTemplate(head)
    requires Truthy(f.name) ==> GoodSegment(f.name.value)
    ensures Documents(FlatFields(f, prefix), head, Under(Own(f), Body(f)))
    decreases f, 0
  {
    hide Documents, StandsFor, GetPrefix, GoodTemplate;
    var own, t := GetPrefix(prefix, f.name), head + Own(f);
    PrefixOwn(prefix, head, f);
    match f {
      case Plain(_) =>
        OwnDocuments(own, t, f);
      case Serializer(_, fields) =>
        SlotDocuments(own, t, Lit(NON_FIELD_ERRORS), f);
        FieldsDocument(fields, own, t);
        DocumentsConcat([InputDataField(GetPrefix(own, Some(NON_FIELD_ERRORS)), f)], [[Lit(NON_FIELD_ERRORS)]],
                        FlatFieldsOf(fields, own), BodyOf(fields), t);
      case ListSerializer(_, child) =>
        SlotDocuments(own, t, Lit(NON_FIELD_ERRORS), f);
        ChildDocuments(child, own, t, AnyIndex);
        DocumentsConcat([InputDataField(GetPrefix(own, Some(NON_FIELD_ERRORS)), f)], [[Lit(NON_FIELD_ERRORS)]],
                        FlatFields(child, GetPrefix(own, Some(LIST_INDEX))), Under([AnyIndex] + Own(child), Body(child)), t);
      case ListField(_, child) =>
        OwnDocuments(own, t, f);
        ChildDocuments(child, own, t, AnyIndex);
        DocumentsConcat([InputDataField(own, f)], [[]],
                        FlatFields(child, GetPrefix(own, Some(LIST_INDEX))), Under([AnyIndex] + Own(child), Body(child)), t);
      case DictField(_, child) =>
        OwnDocuments(own, t, f);
        ChildDocuments(child, own, t, AnyKey);
        DocumentsConcat([InputDataField(own, f)], [[]],
                        FlatFields(child, GetPrefix(own, Some(DICT_KEY))), Under([AnyKey] + Own(child), Body(child)), t);
    }
    DocumentsUnder(FlatFields(f, prefix), head, Own(f), Body(f));
  }

  lemma OwnDocuments(own: Option<string>, t: Template, f: Field)
    requires StandsFor(own, t) && GoodTemplate(t)
    ensures Documents([InputDataField(own, f)], t, [[]])
  {
    assert t + [] == t;
  }

  lemma SlotDocuments(own: Option<string>, t: Template, s: Slot, f: Field)
    requires StandsFor(own, t) && GoodTemplate(t) && GoodSegment(SlotText(s))
    ensures Documents([InputDataField(GetPrefix(own, Some(SlotText(s))), f)], t, [[s]])
  {
    PrefixExtends(own, t, s);
  }

  lemma {:induction false} ChildDocuments(child: Field, own: Option<string>, t: Template, s: Slot)
    requires Bound(child) && !Truthy(NameOf(child)) && StandsFor(own, t) && GoodTemplate(t)
    requires s == AnyIndex || s == AnyKey
    ensures Documents(FlatFields(child, GetPrefix(own, Some(SlotText(s)))), t, Under([s] + Own(child), Body(child)))
    decreases child, 1
  {
    hide Documents, StandsFor, GetPrefix, GoodTemplate;
    var prefix := GetPrefix(own, Some(SlotText(s)));
    PrefixExtends(own, t, s);
    FieldDocuments(child, prefix, t + [s]);
    DocumentsUnder(FlatFields(child, prefix), t, [s], Under(Own(child), Body(child)));
    assert forall u: Template :: [s] + (Own(child) + u) == ([s] + Own(child)) + u;
    assert Under([s], Under(Own(child), Body(child))) == Under([s] + Own(child), Body(child));
  }

  lemma {:induction false} FieldsDocument(fs: seq<Field>, prefix: Option<string>, head: Template)
    requires forall i | 0 <= i < |fs| :: Bound(fs[i]) && (Truthy(NameOf(fs[i])) ==> GoodSegment(NameOf(fs[i]).value))
    requires StandsFor(prefix, head) && GoodTemplate(head)
    ensures Documents(FlatFieldsOf(fs, prefix), head, BodyOf(fs))
    decreases fs, 0
  {
    if fs != [] {
      FieldDocuments(fs[0], prefix, head);
      FieldsDocument(fs[1..], prefix, head);
      DocumentsConcat(FlatFields(fs[0], prefix), Under(Own(fs[0]), Body(fs[0])),
                      FlatFieldsOf(fs[1..], prefix), BodyOf(fs[1..]), head);
    }
  }

  // ----- The error details a field tree can produce

  /** A list of messages: what a plain field, or a whole serializer, reports about itself. */
  predicate MessageList(d: Detail) {
    d.List? && forall i | 0 <= i < |d.items| :: Inline(d.items[i])
  }

  /** A serializer's member of the given name. */
  predicate HasMember(fields: seq<Field>, key: string) {
    exists i | 0 <= i < |fields| :: NameOf(fields[i]) == Some(key)
  }

  function Member(fields: seq<Field>, key: string): (g: Field)
    requires HasMember(fields, key)
    ensures g in fields && NameOf(g) == Some(key)
  {
    if NameOf(fields[0]) == Some(key) then fields[0] else Member(fields[1..], key)
  }

  /** The details validation produces for a field: nested ones under member names, positions and keys. */
  ghost predicate Shaped(f: Field, d: Detail)
    decreases f, d
  {
    MessageList(d) ||
    match f
    case Plain(_) => false
    case Serializer(_, fields) =>
      d.Dict? && forall i | 0 <= i < |d.entries| ::
        var Entry(key, value) := d.entries[i];
        if key == NON_FIELD_ERRORS then MessageList(value)
        else HasMember(fields, key) && Shaped(Member(fields, key), value)
    case ListSerializer(_, child) =>
      if d.Dict? then
        forall i | 0 <= i < |d.entries| :: d.entries[i].key == NON_FIELD_ERRORS && MessageList(d.entries[i].value)
      else d.List? && forall i | 0 <= i < |d.items| :: d.items[i].Dict? && Shaped(child, d.items[i])
    case ListField(_, child) =>
      d.Dict? && forall i | 0 <= i < |d.entries| :: IsNumeral(d.entries[i].key) && Shaped(child, d.entries[i].value)
    case DictField(_, child) =>
      d.Dict? && forall i | 0 <= i < |d.entries| :: Shaped(child, d.entries[i].value)
    case Polymorphic(_) => false
  }

  /** No serializer or list serializer is given a bare, non-empty list of messages. */
  ghost predicate NoBareMessages(f: Field, d: Detail)
    requires Shaped(f, d)
    decreases f, d
  {
    if MessageList(d) then (f.Serializer? || f.ListSerializer? ==> !HasMessage(d))
    else match f
         case Serializer(_, fields) =>
           forall i | 0 <= i < |d.entries| && d.entries[i].key != NON_FIELD_ERRORS ::
             NoBareMessages(Member(fields, d.entries[i].key), d.entries[i].value)
         case ListSerializer(_, child) =>
           d.List? ==> forall i | 0 <= i < |d.items| :: NoBareMessages(child, d.items[i])
         case ListField(_, child) => forall i | 0 <= i < |d.entries| :: NoBareMessages(child, d.entries[i].value)
         case DictField(_, child) => forall i | 0 <= i < |d.entries| :: NoBareMessages(child, d.entries[i].value)
         case Plain(_) => true
         case Polymorphic(_) => true
  }

  ghost predicate AnyFits(ts: seq<Template>, p: Path) {
    exists i :: 0 <= i < |ts| && Fits(ts[i], p)
  }

  /** Some template of the field below its own name fits the path. */
  ghost predicate Covers(f: Field, p: Path) {
    AnyFits(Body(f), p)
  }

  /** Every label lies below the path and the field covers what comes after it. */
  ghost predicate AllCovered(f: Field, labels: seq<Path>, path: Path) {
    forall i | 0 <= i < |labels| :: path <= labels[i] && Covers(f, Below(path, labels[i]))
  }

  // How a field's coverage of a path reduces to its parts' coverage.

  lemma FitsHead(s: Slot, t: Template, p: Path)
    ensures Fits([s] + t, p) <==> p != [] && FitsSlot(s, p[0]) && Fits(t, p[1..])
  {
    if p != [] && FitsSlot(s, p[0]) && Fits(t, p[1..]) {
      assert forall i | 0 < i < |p| :: p[i] == p[1..][i - 1];
    }
    if Fits([s] + t, p) {
      assert forall i | 0 <= i < |t| :: ([s] + t)[i + 1] == t[i] && p[1..][i] == p[i + 1];
    }
  }

  lemma FitsConcat(a: seq<Template>, b: seq<Template>, p: Path)
    ensures AnyFits(a + b, p) <==> AnyFits(a, p) || AnyFits(b, p)
  {
    hide Fits;
    if AnyFits(a, p) {
      var i :| 0 <= i < |a| && Fits(a[i], p);
      assert Fits((a + b)[i], p);
    }
    if AnyFits(b, p) {
      var i :| 0 <= i < |b| && Fits(b[i], p);
      assert Fits((a + b)[|a| + i], p);
    }
    if AnyFits(a + b, p) {
      var i :| 0 <= i < |a + b| && Fits((a + b)[i], p);
      assert if i < |a| then Fits(a[i], p) else Fits(b[i - |a|], p);
    }
  }

  lemma FitsOne(t: Template, p: Path)
    ensures AnyFits([t], p) <==> Fits(t, p)
  {
    assert [t][0] == t;
  }

  lemma FitsUnder(s: Slot, ts: seq<Template>, p: Path)
    ensures AnyFits(Under([s], ts), p) <==> p != [] && FitsSlot(s, p[0]) && AnyFits(ts, p[1..])
  {
    hide Fits, FitsSlot;
    forall i | 0 <= i < |ts|
      ensures Fits(Under([s], ts)[i], p) <==> p != [] && FitsSlot(s, p[0]) && Fits(ts[i], p[1..])
    {
      FitsHead(s, ts[i], p);
    }
    if p != [] && FitsSlot(s, p[0]) && AnyFits(ts, p[1..]) {
      var i :| 0 <= i < |ts| && Fits(ts[i], p[1..]);
      assert Fits(Under([s], ts)[i], p);
    }
  }

  /** A composite or list serializer covers its own template and, below an index or key, what its child covers. */
  lemma ChildCovers(child: Field, s: Slot, first: Template, p: Path)
    requires !Truthy(NameOf(child))
    ensures AnyFits([first] + Under([s] + Own(child), Body(child)), p)
            <==> Fits(first, p) || (p != [] && FitsSlot(s, p[0]) && Covers(child, p[1..]))
  {
    hide Fits, FitsSlot, AnyFits;
    assert [s] + Own(child) == [s];
    FitsConcat([first], Under([s], Body(child)), p);
    FitsOne(first, p);
    FitsUnder(s, Body(child), p);
  }

  lemma {:induction false} MembersCoverByName(fields: seq<Field>, p: Path)
    requires forall i | 0 <= i < |fields| :: IsMemberName(NameOf(fields[i]))
    requires forall i, j | 0 <= i < j < |fields| :: NameOf(fields[i]) != NameOf(fields[j])
    ensures AnyFits(BodyOf(fields), p) <==>
              p != [] && HasMember(fields, p[0]) && Covers(Member(fields, p[0]), p[1..])
    decreases fields
  {
    if fields != [] {
      hide AnyFits, Fits;
      var g, rest := fields[0], fields[1..];
      FitsUnder(Lit(NameOf(g).value), Body(g), p);
      assert Own(g) == [Lit(NameOf(g).value)];
      MembersCoverByName(rest, p);
      FitsConcat(Under(Own(g), Body(g)), BodyOf(rest), p);
      if p != [] {
        MemberStep(fields, p[0]);
      }
    }
  }

  lemma MemberStep(fields: seq<Field>, key: string)
    requires fields != []
    requires forall i, j | 0 <= i < j < |fields| :: NameOf(fields[i]) != NameOf(fields[j])
    ensures HasMember(fields, key) <==> NameOf(fields[0]) == Some(key) || HasMember(fields[1..], key)
    ensures NameOf(fields[0]) == Some(key) ==> Member(fields, key) == fields[0] && !HasMember(fields[1..], key)
    ensures NameOf(fields[0]) != Some(key) && HasMember(fields, key) ==> Member(fields, key) == Member(fields[1..], key)
  {
    assert fields == [fields[0]] + fields[1..];
  }

  lemma SerializerCovers(f: Field, p: Path)
    requires f.Serializer? && Bound(f)
    ensures Covers(f, p) <==>
              || p == [NON_FIELD_ERRORS]
              || (p != [] && HasMember(f.fields, p[0]) && Covers(Member(f.fields, p[0]), p[1..]))
  {
    hide AnyFits;
    MembersCoverByName(f.fields, p);
    FitsConcat([[Lit(NON_FIELD_ERRORS)]], BodyOf(f.fields), p);
    FitsOne([Lit(NON_FIELD_ERRORS)], p);
  }

  lemma ListSerializerCovers(f: Field, p: Path)
    requires f.ListSerializer? && Bound(f)
    ensures Covers(f, p) <==> p == [NON_FIELD_ERRORS] || (p != [] && IsIndex(p[0]) && Covers(f.child, p[1..]))
  {
    hide AnyFits;
    ChildCovers(f.child, AnyIndex, [Lit(NON_FIELD_ERRORS)], p);
  }

  lemma ListFieldCovers(f: Field, p: Path)
    requires f.ListField? && Bound(f)
    ensures Covers(f, p) <==> p == [] || (IsIndex(p[0]) && Covers(f.child, p[1..]))
  {
    hide AnyFits;
    ChildCovers(f.child, AnyIndex, [], p);
  }

  lemma DictFieldCovers(f: Field, p: Path)
    requires f.DictField? && Bound(f)
    ensures Covers(f, p) <==> p == [] || Covers(f.child, p[1..])
  {
    hide AnyFits;
    ChildCovers(f.child, AnyKey, [], p);
  }

  // ----- Run-time names against documented names

  /** Every message of a message list is labelled with the list's own path. */
  lemma {:induction false} MessageListLabels(items: seq<Detail>, path: Path, number: nat)
    requires forall i | 0 <= i < |items| :: Inline(items[i])
    ensures forall i | 0 <= i < |LabelItems(items, path, number)| :: LabelItems(items, path, number)[i] == path
    ensures |LabelItems(items, path, number)| > 0 <==> SomeMessage(items)
    decreases items
  {
    if items != [] {
      MessageListLabels(items[1..], path, number);
      SomeMessageStep(items);
    }
  }

  lemma MessageListCovered(f: Field, d: Detail, path: Path, index: Option<nat>)
    requires Bound(f) && MessageList(d)
    ensures AllCovered(f, Labels(d, path, index), path)
            <==> (f.Serializer? || f.ListSerializer? ==> !HasMessage(d))
  {
    var labels := Labels(d, path, index);
    MessageListLabels(d.items, path, FirstNumber(index));
    CoversItself(f);
    assert Below(path, path) == [];
    if |labels| > 0 {
      assert labels[0] == path;
    }
  }

  /** Every field but a serializer or list serializer documents its bare name. */
  lemma CoversItself(f: Field)
    requires Bound(f)
    ensures Covers(f, []) <==> !f.Serializer? && !f.ListSerializer?
  {
    match f {
      case Serializer(_, _) => SerializerCovers(f, []);
      case ListSerializer(_, _) => ListSerializerCovers(f, []);
      case ListField(_, _) => ListFieldCovers(f, []);
      case DictField(_, _) => DictFieldCovers(f, []);
      case Plain(_) => FitsOne([], []);
    }
  }

  lemma CoveredConcat(f: Field, a: seq<Path>, b: seq<Path>, path: Path)
    ensures AllCovered(f, a + b, path) <==> AllCovered(f, a, path) && AllCovered(f, b, path)
  {
    hide Covers;
    if AllCovered(f, a + b, path) {
      assert forall i | 0 <= i < |a| :: a[i] == (a + b)[i];
      assert forall i | 0 <= i < |b| :: b[i] == (a + b)[|a| + i];
    }
  }

  /** Labels below one segment are covered exactly when the part behind that segment covers them. */
  lemma CoveredBelow(f: Field, g: Field, labels: seq<Path>, path: Path, segment: string)
    requires forall i | 0 <= i < |labels| :: path + [segment] <= labels[i]
    requires forall p :: Covers(f, [segment] + p) <==> Covers(g, p)
    ensures AllCovered(f, labels, path) <==> AllCovered(g, labels, path + [segment])
  {
    hide Covers;
    forall i | 0 <= i < |labels|
      ensures Covers(f, Below(path, labels[i])) <==> Covers(g, Below(path + [segment], labels[i]))
    {
      assert Below(path, labels[i]) == [segment] + Below(path + [segment], labels[i]);
    }
  }

  /** Whether one dict entry of a composite field's detail is covered. */
  lemma NonFieldCovered(f: Field, value: Detail, path: Path)
    requires f.Serializer? || f.ListSerializer?
    requires Bound(f) && MessageList(value)
    ensures AllCovered(f, Labels(value, path + [NON_FIELD_ERRORS], None), path)
  {
    var labels := Labels(value, path + [NON_FIELD_ERRORS], None);
    MessageListLabels(value.items, path + [NON_FIELD_ERRORS], 0);
    assert Below(path, path + [NON_FIELD_ERRORS]) == [NON_FIELD_ERRORS];
    if f.Serializer? {
      SerializerCovers(f, [NON_FIELD_ERRORS]);
    } else {
      ListSerializerCovers(f, [NON_FIELD_ERRORS]);
    }
  }

  /** g is the part of f found under the given segment: a member by name, or the child at an index or key. */
  ghost predicate IsPart(f: Field, g: Field, segment: string) {
    match f
    case Serializer(_, fields) => HasMember(fields, segment) && g == Member(fields, segment)
    case ListSerializer(_, child) => IsNumeral(segment) && g == child
    case ListField(_, child) => IsNumeral(segment) && g == child
    case DictField(_, child) => g == child
    case _ => false
  }

  /** A path below a member name, an index or a key is covered exactly when the part there covers the rest. */
  lemma PartCovers(f: Field, g: Field, segment: string, p: Path)
    requires Bound(f)
    requires IsPart(f, g, segment)
    ensures Covers(f, [segment] + p) <==> Covers(g, p)
  {
    hide Covers, IsNumeral;
    var q := [segment] + p;
    assert q[0] == segment && q[1..] == p;
    match f {
      case Serializer(_, fields) =>
        SerializerCovers(f, q);
        assert segment != NON_FIELD_ERRORS;
      case ListSerializer(_, child) =>
        NotNumeral(segment);
        ListSerializerCovers(f, q);
      case ListField(_, child) =>
        ListFieldCovers(f, q);
      case DictField(_, child) =>
        DictFieldCovers(f, q);
    }
  }

  lemma NotNumeral(s: string)
    requires IsNumeral(s)
    ensures s != NON_FIELD_ERRORS
  {
    assert NON_FIELD_ERRORS[0] == 'n';
  }

  lemma NumeralIsNumeral(n: nat)
    ensures IsNumeral(Str(n))
  {
    StrDenotes(n);
  }

  lemma PartCovered(f: Field, g: Field, segment: string, labels: seq<Path>, path: Path)
    requires Bound(f)
    requires IsPart(f, g, segment)
    requires forall i | 0 <= i < |labels| :: path + [segment] <= labels[i]
    ensures AllCovered(f, labels, path) <==> AllCovered(g, labels, path + [segment])
  {
    hide Covers, AllCovered, IsNumeral;
    forall p
      ensures Covers(f, [segment] + p) <==> Covers(g, p)
    {
      PartCovers(f, g, segment, p);
    }
    CoveredBelow(f, g, labels, path, segment);
  }

  /** The shape of one entry of a field's dict of errors. */
  ghost predicate EntryShaped(f: Field, e: Entry) {
    match f
    case Serializer(_, fields) =>
      if e.key == NON_FIELD_ERRORS then MessageList(e.value)
      else HasMember(fields, e.key) && Shaped(Member(fields, e.key), e.value)
    case ListSerializer(_, _) => e.key == NON_FIELD_ERRORS && MessageList(e.value)
    case ListField(_, child) => IsNumeral(e.key) && Shaped(child, e.value)
    case DictField(_, child) => Shaped(child, e.value)
    case Plain(_) => false
    case Polymorphic(_) => false
  }

  ghost predicate EntryNotBare(f: Field, e: Entry)
    requires EntryShaped(f, e)
  {
    match f
    case Serializer(_, fields) => e.key != NON_FIELD_ERRORS ==> NoBareMessages(Member(fields, e.key), e.value)
    case ListSerializer(_, _) => true
    case ListField(_, child) => NoBareMessages(child, e.value)
    case DictField(_, child) => NoBareMessages(child, e.value)
  }

  lemma {:induction false} EntryCovered(f: Field, e: Entry, path: Path)
    requires Bound(f) && EntryShaped(f, e)
    ensures AllCovered(f, Labels(e.value, path + [e.key], None), path) <==> EntryNotBare(f, e)
    decreases f, 1, 0
  {
    hide AllCovered, Covers, Shaped, NoBareMessages, IsNumeral;
    var p := path + [e.key];
    var labels := Labels(e.value, p, None);
    StayUnder(e.value, p, p, None);
    if (f.Serializer? || f.ListSerializer?) && e.key == NON_FIELD_ERRORS {
      NonFieldCovered(f, e.value, path);
    } else {
      var g := if f.Serializer? then Member(f.fields, e.key) else f.child;
      CoveredExactly(g, e.value, p, None);
      PartCovered(f, g, e.key, labels, path);
    }
  }

  lemma {:induction false} EntriesCovered(f: Field, entries: seq<Entry>, path: Path)
    requires Bound(f) && forall i | 0 <= i < |entries| :: EntryShaped(f, entries[i])
    ensures AllCovered(f, LabelEntries(entries, path), path)
            <==> forall i | 0 <= i < |entries| :: EntryNotBare(f, entries[i])
    decreases f, 1, |entries|
  {
    if entries != [] {
      hide AllCovered, EntryShaped, EntryNotBare;
      var e, rest := entries[0], entries[1..];
      EntryCovered(f, e, path);
      EntriesCovered(f, rest, path);
      CoveredConcat(f, Labels(e.value, path + [e.key], None), LabelEntries(rest, path), path);
      assert entries == [e] + rest;
    }
  }

  ghost predicate ItemsNotBare(f: Field, items: seq<Detail>)
    requires forall i | 0 <= i < |items| :: Shaped(f, items[i])
  {
    forall i | 0 <= i < |items| :: NoBareMessages(f, items[i])
  }

  lemma ItemsNotBareStep(f: Field, items: seq<Detail>)
    requires items != [] && forall i | 0 <= i < |items| :: Shaped(f, items[i])
    ensures ItemsNotBare(f, items) <==> NoBareMessages(f, items[0]) && ItemsNotBare(f, items[1..])
  {
    hide Shaped, NoBareMessages;
    assert items == [items[0]] + items[1..];
  }

  lemma {:induction false} ItemsCovered(f: Field, items: seq<Detail>, path: Path, number: nat)
    requires f.ListSerializer? && Bound(f)
    requires forall i | 0 <= i < |items| :: items[i].Dict? && Shaped(f.child, items[i])
    ensures AllCovered(f, LabelItems(items, path, number), path)
            <==> ItemsNotBare(f.child, items)
    decreases f, 1, |items|
  {
    if items != [] {
      hide AllCovered, Shaped, NoBareMessages, Covers, IsNumeral, ItemsNotBare;
      ItemsNotBareStep(f.child, items);
      var item, rest := items[0], items[1..];
      var p := path + [Str(number)];
      StayUnder(item, p, p, Some(number));
      CoveredExactly(f.child, item, p, Some(number));
      NumeralIsNumeral(number);
      PartCovered(f, f.child, Str(number), Labels(item, p, Some(number)), path);
      ItemsCovered(f, rest, path, number + 1);
      CoveredConcat(f, Labels(item, p, Some(number)), LabelItems(rest, path, number + 1), path);
    }
  }

  /**
   For every field tree and every detail shaped like it, the reported paths are all documented
   exactly when no serializer or list serializer received a bare list of messages. Those the schema
   documents under "non_field_errors", but flatten_errors reports them under the field's own name.
   */
  lemma {:induction false} CoveredExactly(f: Field, d: Detail, path: Path, index: Option<nat>)
    requires Bound(f) && Shaped(f, d)
    ensures AllCovered(f, Labels(d, path, index), path) <==> NoBareMessages(f, d)
    decreases f, 2, 0
  {
    hide AllCovered;
    if MessageList(d) {
      MessageListCovered(f, d, path, index);
    } else if d.Dict? {
      assert forall i | 0 <= i < |d.entries| :: EntryShaped(f, d.entries[i]);
      EntriesCovered(f, d.entries, path);
    } else {
      ItemsCovered(f, d.items, path, FirstNumber(index));
    }
  }

  /** A segment of a documented name stands for itself, INDEX also for any number and KEY for any key. */
  ghost predicate SegmentFits(name: string, segment: string) {
    segment == name || (name == LIST_INDEX && IsNumeral(segment)) || name == DICT_KEY
  }

  ghost predicate PathFits(q: Path, p: Path) {
    |q| == |p| && forall i | 0 <= i < |q| :: SegmentFits(q[i], p[i])
  }

  /** A documented name matches an attribute: segment by segment they agree but for indexes and keys. */
  ghost predicate NameMatches(name: Option<string>, attr: Option<string>) {
    exists q: Path, p: Path :: GoodPath(q) && GoodPath(p) && name == Render(q) && attr == Render(p) && PathFits(q, p)
  }

  /** Some documented name matches the attribute. */
  ghost predicate IsDocumented(fields: seq<InputDataField>, attr: Option<string>) {
    exists k :: 0 <= k < |fields| && NameMatches(fields[k].name, attr)
  }

  /** Every error reported for the detail is. */
  ghost predicate AllDocumented(fields: seq<InputDataField>, d: Detail) {
    forall i | 0 <= i < |Flatten(d, None, None)| :: IsDocumented(fields, Flatten(d, None, None)[i].attr)
  }

  /** A serializer or list serializer as a view declares it. */
  predicate IsRoot(f: Field) {
    (f.Serializer? || f.ListSerializer?) && !Truthy(f.name) && Bound(f)
  }

  lemma DocumentedName(f: Field, i: nat)
    requires IsRoot(f) && i < |Body(f)|
    ensures |FlatFields(f, None)| == |Body(f)|
    ensures FlatFields(f, None)[i].name == Render(Texts(Body(f)[i])) && GoodTemplate(Body(f)[i]) && Body(f)[i] != []
  {
    FieldDocuments(f, None, []);
    assert Own(f) == [];
    assert Under(Own(f), Body(f))[i] == Body(f)[i];
    assert [] + Body(f)[i] == Body(f)[i];
    if Body(f)[i] == [] {
      assert Fits(Body(f)[i], []);
      CoversItself(f);
      assert false;
    }
  }

  /** Then every error's attribute is the name of some documented field. */
  lemma ErrorsAreDocumented(f: Field, d: Detail)
    requires IsRoot(f) && Shaped(f, d) && NoBareMessages(f, d) && GoodKeys(d)
    ensures AllDocumented(FlatFields(f, None), d)
  {
    hide Shaped, NoBareMessages, Fits;
    CoveredExactly(f, d, [], None);
    AttributesSpellLabels(d, [], None);
    var errors, labels := Flatten(d, None, None), Labels(d, [], None);
    forall i | 0 <= i < |errors|
      ensures IsDocumented(FlatFields(f, None), errors[i].attr)
    {
      assert Below([], labels[i]) == labels[i];
      var k :| 0 <= k < |Body(f)| && Fits(Body(f)[k], labels[i]);
      DocumentedName(f, k);
      TextsFit(Body(f)[k], labels[i]);
      assert NameMatches(FlatFields(f, None)[k].name, errors[i].attr);
    }
  }

  lemma TextsFit(t: Template, p: Path)
    requires Fits(t, p)
    ensures PathFits(Texts(t), p)
  {
    assert forall i | 0 <= i < |t| :: FitsSlot(t[i], p[i]);
  }

  // ----- The converse, for members that are not called INDEX or KEY

  predicate PlainSlot(s: Slot) {
    s.Lit? ==> s.name != LIST_INDEX && s.name != DICT_KEY
  }

  predicate PlainTemplate(t: Template) {
    forall i | 0 <= i < |t| :: PlainSlot(t[i])
  }

  predicate PlainTemplates(ts: seq<Template>) {
    forall i | 0 <= i < |ts| :: PlainTemplate(ts[i])
  }

  /** No member anywhere in the tree is called INDEX or KEY. */
  predicate PlainNames(f: Field) {
    match f
    case ListSerializer(_, child) => PlainNames(child)
    case Polymorphic(serializers) => false
    case Serializer(_, fields) =>
      forall i | 0 <= i < |fields| ::
        PlainNames(fields[i]) && NameOf(fields[i]) != Some(LIST_INDEX) && NameOf(fields[i]) != Some(DICT_KEY)
    case ListField(_, child) => PlainNames(child)
    case DictField(_, child) => PlainNames(child)
    case Plain(_) => true
  }

  lemma PlainUnder(head: Template, ts: seq<Template>)
    requires PlainTemplate(head) && PlainTemplates(ts)
    ensures PlainTemplates(Under(head, ts))
  {
    forall i | 0 <= i < |ts|
      ensures PlainTemplate(Under(head, ts)[i])
    {
      assert Under(head, ts)[i] == head + ts[i] && PlainTemplate(ts[i]);
    }
  }

  lemma {:induction false} PlainBody(f: Field)
    requires Bound(f) && PlainNames(f)
    ensures PlainTemplates(Body(f))
    decreases f, 0
  {
    match f {
      case Serializer(_, fields) => PlainBodyOf(fields);
      case ListSerializer(_, child) => PlainChild(child, AnyIndex);
      case ListField(_, child) => PlainChild(child, AnyIndex);
      case DictField(_, child) => PlainChild(child, AnyKey);
      case Plain(_) =>
    }
  }

  lemma {:induction false} PlainChild(child: Field, s: Slot)
    requires Bound(child) && PlainNames(child) && !Truthy(NameOf(child)) && PlainSlot(s)
    ensures PlainTemplates(Under([s] + Own(child), Body(child)))
    decreases child, 1
  {
    PlainBody(child);
    PlainUnder([s] + Own(child), Body(child));
  }

  lemma {:induction false} PlainBodyOf(fs: seq<Field>)
    requires forall i | 0 <= i < |fs| ::
               Bound(fs[i]) && PlainNames(fs[i]) && NameOf(fs[i]) != Some(LIST_INDEX) && NameOf(fs[i]) != Some(DICT_KEY)
    ensures PlainTemplates(BodyOf(fs))
    decreases fs, 0
  {
    if fs != [] {
      PlainBody(fs[0]);
      PlainUnder(Own(fs[0]), Body(fs[0]));
      PlainBodyOf(fs[1..]);
    }
  }

  lemma PlainFits(t: Template, p: Path)
    requires PlainTemplate(t) && PathFits(Texts(t), p)
    ensures Fits(t, p)
  {
    forall i | 0 <= i < |t|
      ensures FitsSlot(t[i], p[i])
    {
      assert SegmentFits(Texts(t)[i], p[i]) && PlainSlot(t[i]);
    }
  }

  lemma SameLength(q: Path, p: Path)
    requires PathFits(q, p)
    ensures |q| == |p|
  {
  }

  lemma RootCount(f: Field)
    requires IsRoot(f)
    ensures |FlatFields(f, None)| == |Body(f)|
  {
    FieldDocuments(f, None, []);
  }

  /** A documented attribute is one whose path the root covers. */
  lemma DocumentedIsCovered(f: Field, p: Path)
    requires IsRoot(f) && PlainNames(f) && GoodPath(p) && IsDocumented(FlatFields(f, None), Render(p))
    ensures Covers(f, p)
  {
    hide PathFits, GoodPath, FlatFields, Body, GoodTemplate;
    var k :| 0 <= k < |FlatFields(f, None)| && NameMatches(FlatFields(f, None)[k].name, Render(p));
    RootCount(f);
    DocumentedName(f, k);
    var t := Body(f)[k];
    var q: Path, p': Path :| GoodPath(q) && GoodPath(p') && FlatFields(f, None)[k].name == Render(q)
                             && Render(p) == Render(p') && PathFits(q, p');
    SameLength(q, p');
    JoinInjective(q, Texts(t));
    JoinInjective(p, p');
    PlainBody(f);
    PlainFits(t, p);
  }

  /**
   On attribute names: every error's attribute is the name of some documented field if and only if
   no serializer or list serializer received a bare list of messages.
   */
  lemma AttributesDocumentedExactly(f: Field, d: Detail)
    requires IsRoot(f) && PlainNames(f) && Shaped(f, d) && GoodKeys(d)
    ensures AllDocumented(FlatFields(f, None), d) <==> NoBareMessages(f, d)
  {
    hide Shaped, NoBareMessages, IsRoot, FlatFields, AllDocumented, AllCovered;
    RootIsBound(f);
    CoveredExactly(f, d, [], None);
    if NoBareMessages(f, d) {
      ErrorsAreDocumented(f, d);
    }
    if AllDocumented(FlatFields(f, None), d) {
      DocumentedAreCovered(f, d);
    }
  }

  lemma DocumentedAreCovered(f: Field, d: Detail)
    requires IsRoot(f) && PlainNames(f) && GoodKeys(d) && AllDocumented(FlatFields(f, None), d)
    ensures AllCovered(f, Labels(d, [], None), [])
  {
    hide IsRoot, FlatFields, IsDocumented, Covers;
    var errors, labels := Flatten(d, None, None), Labels(d, [], None);
    AttributesSpellLabels(d, [], None);
    forall i | 0 <= i < |labels|
      ensures [] <= labels[i] && Covers(f, Below([], labels[i]))
    {
      assert Below([], labels[i]) == labels[i] && errors[i].attr == Render(labels[i]);
      DocumentedIsCovered(f, labels[i]);
    }
  }

  lemma RootIsBound(f: Field)
    requires IsRoot(f)
    ensures Bound(f)
  {
  }

  /** The same for a polymorphic proxy, when the detail has the shape of one of its serializers. */
  lemma {:induction false} PolymorphicIsDocumented(serializers: seq<Field>, j: nat, d: Detail)
    requires j < |serializers| && IsRoot(serializers[j])
    requires Shaped(serializers[j], d) && NoBareMessages(serializers[j], d) && GoodKeys(d)
    ensures AllDocumented(FlatFields(Polymorphic(serializers), None), d)
  {
    var f := serializers[j];
    ErrorsAreDocumented(f, d);
    SerializerIncluded(serializers, j);
    var all := FlatFieldsOf(serializers, None);
    forall i | 0 <= i < |Flatten(d, None, None)|
      ensures IsDocumented(all, Flatten(d, None, None)[i].attr)
    {
      assert IsDocumented(FlatFields(f, None), Flatten(d, None, None)[i].attr);
      var k :| 0 <= k < |FlatFields(f, None)| && NameMatches(FlatFields(f, None)[k].name, Flatten(d, None, None)[i].attr);
      assert FlatFields(f, None)[k] in all;
    }
  }

  lemma {:induction false} SerializerIncluded(fs: seq<Field>, j: nat)
    requires j < |fs|
    ensures forall x | x in FlatFields(fs[j], None) :: x in FlatFieldsOf(fs, None)
  {
    if j > 0 {
      SerializerIncluded(fs[1..], j - 1);
    }
  }

  // ----- Which field a documented name stands for

  /** The field a template leads to: itself by its own name, a member, or the child at an index or key. */
  function FieldAt(f: Field, t: Template): Option<Field>
    decreases |t|
  {
    match f
    case Plain(_) => if t == [] then Some(f) else None
    case Serializer(_, fields) =>
      if t == [Lit(NON_FIELD_ERRORS)] then Some(f)
      else if t != [] && t[0].Lit? && HasMember(fields, t[0].name) then FieldAt(Member(fields, t[0].name), t[1..])
      else None
    case ListSerializer(_, child) =>
      if t == [Lit(NON_FIELD_ERRORS)] then Some(f)
      else if t != [] && t[0] == AnyIndex then FieldAt(child, t[1..]) else None
    case ListField(_, child) =>
      if t == [] then Some(f) else if t[0] == AnyIndex then FieldAt(child, t[1..]) else None
    case DictField(_, child) =>
      if t == [] then Some(f) else if t[0] == AnyKey then FieldAt(child, t[1..]) else None
    case Polymorphic(_) => None
  }

  /** The documented fields are those the templates lead to, in order. */
  ghost predicate Lead(f: Field, ts: seq<Template>, fields: seq<InputDataField>) {
    |fields| == |ts| && forall i | 0 <= i < |ts| :: FieldAt(f, ts[i]) == Some(fields[i].field)
  }

  lemma LeadConcat(f: Field, ts: seq<Template>, a: seq<InputDataField>, us: seq<Template>, b: seq<InputDataField>)
    requires Lead(f, ts, a) && Lead(f, us, b)
    ensures Lead(f, ts + us, a + b)
  {
    hide FieldAt;
    forall i | 0 <= i < |ts + us|
      ensures FieldAt(f, (ts + us)[i]) == Some((a + b)[i].field)
    {
      if i < |ts| {
        assert FieldAt(f, ts[i]) == Some(a[i].field);
      } else {
        assert FieldAt(f, us[i - |ts|]) == Some(b[i - |ts|].field);
      }
    }
  }

  lemma LeadBelow(f: Field, g: Field, head: Template, ts: seq<Template>, fields: seq<InputDataField>)
    requires Lead(g, ts, fields) && forall t :: FieldAt(f, head + t) == FieldAt(g, t)
    ensures Lead(f, Under(head, ts), fields)
  {
    hide FieldAt;
    forall i | 0 <= i < |ts|
      ensures FieldAt(f, Under(head, ts)[i]) == Some(fields[i].field)
    {
      assert Under(head, ts)[i] == head + ts[i];
      assert FieldAt(g, ts[i]) == Some(fields[i].field);
    }
  }

  /** Every documented name carries the very field its template leads to. */
  lemma {:induction false} FieldsLead(f: Field, prefix: Option<string>)
    requires Bound(f)
    ensures Lead(f, Body(f), FlatFields(f, prefix))
    decreases f, 1, 0
  {
    hide Lead, GetPrefix;
    var own := GetPrefix(prefix, f.name);
    match f {
      case Plain(_) => OneLeads(f, [], own);
      case Serializer(_, fields) =>
        var name := GetPrefix(own, Some(NON_FIELD_ERRORS));
        OneLeads(f, [Lit(NON_FIELD_ERRORS)], name);
        MembersLead(f, 0, own);
        assert fields[0..] == fields;
        LeadConcat(f, [[Lit(NON_FIELD_ERRORS)]], [InputDataField(name, f)], BodyOf(fields), FlatFieldsOf(fields, own));
      case ListSerializer(_, child) =>
        var name := GetPrefix(own, Some(NON_FIELD_ERRORS));
        OneLeads(f, [Lit(NON_FIELD_ERRORS)], name);
        ChildLeads(f, child, AnyIndex, GetPrefix(own, Some(LIST_INDEX)));
        LeadConcat(f, [[Lit(NON_FIELD_ERRORS)]], [InputDataField(name, f)],
                   Under([AnyIndex] + Own(child), Body(child)), FlatFields(child, GetPrefix(own, Some(LIST_INDEX))));
      case ListField(_, child) =>
        OneLeads(f, [], own);
        ChildLeads(f, child, AnyIndex, GetPrefix(own, Some(LIST_INDEX)));
        LeadConcat(f, [[]], [InputDataField(own, f)],
                   Under([AnyIndex] + Own(child), Body(child)), FlatFields(child, GetPrefix(own, Some(LIST_INDEX))));
      case DictField(_, child) =>
        OneLeads(f, [], own);
        ChildLeads(f, child, AnyKey, GetPrefix(own, Some(DICT_KEY)));
        LeadConcat(f, [[]], [InputDataField(own, f)],
                   Under([AnyKey] + Own(child), Body(child)), FlatFields(child, GetPrefix(own, Some(DICT_KEY))));
    }
  }

  lemma OneLeads(f: Field, t: Template, name: Option<string>)
    requires FieldAt(f, t) == Some(f)
    ensures Lead(f, [t], [InputDataField(name, f)])
  {
  }

  lemma {:induction false} ChildLeads(f: Field, child: Field, s: Slot, prefix: Option<string>)
    requires Bound(child) && !Truthy(NameOf(child))
    requires (f.ListSerializer? || f.ListField? || f.DictField?) && f.child == child
    requires s == if f.DictField? then AnyKey else AnyIndex
    ensures Lead(f, Under([s] + Own(child), Body(child)), FlatFields(child, prefix))
    decreases child, 2, 0
  {
    FieldsLead(child, prefix);
    hide Lead;
    assert [s] + Own(child) == [s];
    forall t: Template
      ensures FieldAt(f, [s] + t) == FieldAt(child, t)
    {
      assert ([s] + t)[1..] == t && ([s] + t)[0] == s;
    }
    LeadBelow(f, child, [s], Body(child), FlatFields(child, prefix));
  }

  /** Members from number j on. */
  lemma {:induction false} MembersLead(f: Field, j: nat, prefix: Option<string>)
    requires f.Serializer? && Bound(f) && j <= |f.fields|
    ensures Lead(f, BodyOf(f.fields[j..]), FlatFieldsOf(f.fields[j..], prefix))
    decreases f, 0, |f.fields| - j
  {
    var rest := f.fields[j..];
    if rest != [] {
      var g := f.fields[j];
      assert rest[0] == g && rest[1..] == f.fields[j + 1..];
      FieldsLead(g, prefix);
      MembersLead(f, j + 1, prefix);
      hide Lead;
      MemberAt(f, j);
      forall t: Template
        ensures FieldAt(f, Own(g) + t) == FieldAt(g, t)
      {
        MemberTemplate(f, g, t);
      }
      LeadBelow(f, g, Own(g), Body(g), FlatFields(g, prefix));
      LeadConcat(f, Under(Own(g), Body(g)), FlatFields(g, prefix), BodyOf(rest[1..]), FlatFieldsOf(rest[1..], prefix));
    } else {
      assert BodyOf(rest) == [] && FlatFieldsOf(rest, prefix) == [];
    }
  }

  lemma MemberAt(f: Field, j: nat)
    requires f.Serializer? && Bound(f) && j < |f.fields|
    ensures var g := f.fields[j];
            && IsMemberName(NameOf(g)) && HasMember(f.fields, NameOf(g).value) && Member(f.fields, NameOf(g).value) == g
  {
    var g := f.fields[j];
    var h := Member(f.fields, NameOf(g).value);
    var k :| 0 <= k < |f.fields| && f.fields[k] == h;
  }

  lemma MemberTemplate(f: Field, g: Field, t: Template)
    requires f.Serializer? && IsMemberName(NameOf(g))
    requires HasMember(f.fields, NameOf(g).value) && Member(f.fields, NameOf(g).value) == g
    ensures FieldAt(f, Own(g) + t) == FieldAt(g, t)
  {
    var u := Own(g) + t;
    assert u[0] == Lit(NameOf(g).value) && u[1..] == t;
  }
}
