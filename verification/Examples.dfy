/** The examples that the source's documentation and comments give, on the model. */
module Examples {
  import Decimal
  import T = ErrorTree
  import S = ErrorSchema
  import CodeNaming

  function Message(text: string, code: string): T.Detail {
    T.Leaf(T.ErrorDetail(text, code, T.None, true))
  }

  // ----- The example of flatten_errors

  const TOO_SHORT := "This password is too short."
  const TOO_SIMILAR := "The password is too similar to the username."
  const INVALID := "Enter a valid email address."

  function Passwords(): T.Detail {
    T.List([Message(TOO_SHORT, "password_too_short"), Message(TOO_SIMILAR, "password_too_similar")])
  }

  function Accounts(): T.Detail {
    T.List([T.Dict([]), T.Dict([T.Entry("email", T.List([Message(INVALID, "invalid")]))])])
  }

  lemma FlatPasswords(attr: T.Option<string>)
    ensures T.Flatten(Passwords(), attr, T.None)
            == [T.Error("password_too_short", TOO_SHORT, T.None, attr), T.Error("password_too_similar", TOO_SIMILAR, T.None, attr)]
  {
    var items := Passwords().items;
    var rest := items[1..];
    assert rest == [Message(TOO_SIMILAR, "password_too_similar")];
    T.OneMessage(rest[0].e, attr, T.None);
    assert T.Flatten(T.List([rest[0]]), attr, T.None) == T.FlattenItems(rest, attr, T.None);
    assert T.FlattenItems(rest, attr, T.None) == [T.Error("password_too_similar", TOO_SIMILAR, T.None, attr)];
    assert T.Flatten(items[0], attr, T.None) == [T.Error("password_too_short", TOO_SHORT, T.None, attr)];
    assert T.FlattenItems(items, attr, T.None) == T.Flatten(items[0], attr, T.None) + T.FlattenItems(rest, attr, T.None);
  }

  lemma FlatAccounts(attr: string)
    requires attr != ""
    ensures T.Flatten(Accounts(), T.Some(attr), T.None)
            == [T.Error("invalid", INVALID, T.None, T.Some(attr + "." + "1" + "." + "email"))]
  {
    var second := T.Dict([T.Entry("email", T.List([Message(INVALID, "invalid")]))]);
    SecondAccount(attr + "." + "1");
    EmptyThen(second, attr);
  }

  /** An empty first item only counts. */
  lemma EmptyThen(second: T.Detail, attr: string)
    requires attr != "" && second.Dict?
    ensures T.Flatten(T.List([T.Dict([]), second]), T.Some(attr), T.None)
            == T.Flatten(second, T.Some(attr + "." + "1"), T.Some(1))
  {
    var items := [T.Dict([]), second];
    assert Decimal.Str(1) == "1" && T.Extend(T.Some(attr), "1") == T.Some(attr + "." + "1");
    EmptyDict(T.Extend(T.Some(attr), Decimal.Str(0)));
    T.FirstItem(items, T.Some(attr), T.None);
    assert items[1..] == [second];
    T.OneItem(second, T.Some(attr), T.Some(0));
    hide Decimal.Str, T.Extend, T.Inline;
    assert T.FlattenItems(items[1..], T.Some(attr), T.Some(0)) == T.Flatten(T.List([second]), T.Some(attr), T.Some(0));
  }

  lemma EmptyDict(attr: T.Option<string>)
    ensures T.Flatten(T.Dict([]), attr, T.Some(0)) == []
  {
  }

  lemma SecondAccount(attr: string)
    requires attr != ""
    ensures T.Flatten(T.Dict([T.Entry("email", T.List([Message(INVALID, "invalid")]))]), T.Some(attr), T.Some(1))
            == [T.Error("invalid", INVALID, T.None, T.Some(attr + "." + "email"))]
  {
    var list := T.List([Message(INVALID, "invalid")]);
    T.OneEntry("email", list, T.Some(attr), T.Some(1));
    T.OneMessage(Message(INVALID, "invalid").e, T.Some(attr + "." + "email"), T.None);
  }

  /** The three errors of the example, with their codes, texts and names. */
  lemma FlattenExample()
    ensures T.Flatten(T.Dict([T.Entry("password", Passwords()), T.Entry("linked_accounts", Accounts())]), T.None, T.None)
            == [T.Error("password_too_short", TOO_SHORT, T.None, T.Some("password")),
                T.Error("password_too_similar", TOO_SIMILAR, T.None, T.Some("password")),
                T.Error("invalid", INVALID, T.None, T.Some("linked_accounts" + "." + "1" + "." + "email"))]
  {
    FlatPasswords(T.Some("password"));
    FlatAccounts("linked_accounts");
    hide Passwords, Accounts;
    var first, second := T.Entry("password", Passwords()), T.Entry("linked_accounts", Accounts());
    T.OneEntry("linked_accounts", Accounts(), T.None, T.None);
    assert [first, second][1..] == [second];
    assert T.FlattenEntries([second], T.None) == T.Flatten(T.Dict([second]), T.None, T.None);
    assert T.FlattenEntries([first, second], T.None)
        == T.Flatten(first.value, T.Some("password"), T.None) + T.FlattenEntries([first, second][1..], T.None);
  }

  // ----- Documented names

  /** A serializer with a plain member, a list and a dict of plain values, and a list of serializers. */
  function Order(): S.Field {
    S.Serializer(T.None, [
      S.Plain(T.Some("note")),
      S.ListField(T.Some("tags"), S.Plain(T.None)),
      S.DictField(T.Some("meta"), S.Plain(T.None)),
      S.ListSerializer(T.Some("lines"), S.Serializer(T.None, [S.Plain(T.Some("price"))]))
    ])
  }

  /** The names the schema documents for it. */
  lemma OrderNames()
    ensures |S.FlatFields(Order(), T.None)| == 9
    ensures forall i | 0 <= i < 9 ::
              S.FlatFields(Order(), T.None)[i].name == T.Some(
                [ "non_field_errors", "note", "tags", "tags" + "." + "INDEX", "meta", "meta" + "." + "KEY",
                  "lines" + "." + "non_field_errors", "lines" + "." + "INDEX" + "." + "non_field_errors",
                  "lines" + "." + "INDEX" + "." + "price" ][i])
  {
    var fields := Order().fields;
    assert S.GetPrefix(T.None, T.None) == T.None;
    ListNames("tags");
    DictNames("meta");
    LineNames("lines");
    var r1, r2, r3 := fields[1..], fields[2..], fields[3..];
    assert r1[1..] == r2 && r2[1..] == r3 && r3[1..] == [];
    assert S.FlatFieldsOf(r3, T.None) == S.FlatFields(fields[3], T.None) + S.FlatFieldsOf([], T.None);
    assert S.FlatFieldsOf(r2, T.None) == S.FlatFields(fields[2], T.None) + S.FlatFieldsOf(r3, T.None);
    assert S.FlatFieldsOf(r1, T.None) == S.FlatFields(fields[1], T.None) + S.FlatFieldsOf(r2, T.None);
    assert S.FlatFieldsOf(fields, T.None) == S.FlatFields(fields[0], T.None) + S.FlatFieldsOf(r1, T.None);
    assert S.FlatFields(fields[0], T.None) == [S.InputDataField(T.Some("note"), fields[0])];
  }

  lemma ListNames(name: string)
    requires name != ""
    ensures var f := S.ListField(T.Some(name), S.Plain(T.None));
            S.FlatFields(f, T.None) == [S.InputDataField(T.Some(name), f), S.InputDataField(T.Some(name + "." + "INDEX"), f.child)]
  {
  }

  lemma DictNames(name: string)
    requires name != ""
    ensures var f := S.DictField(T.Some(name), S.Plain(T.None));
            S.FlatFields(f, T.None) == [S.InputDataField(T.Some(name), f), S.InputDataField(T.Some(name + "." + "KEY"), f.child)]
  {
  }

  lemma LineNames(name: string)
    requires name != ""
    ensures var child := S.Serializer(T.None, [S.Plain(T.Some("price"))]);
            var f := S.ListSerializer(T.Some(name), child);
            S.FlatFields(f, T.None)
            == [ S.InputDataField(T.Some(name + "." + "non_field_errors"), f),
                 S.InputDataField(T.Some(name + "." + "INDEX" + "." + "non_field_errors"), child),
                 S.InputDataField(T.Some(name + "." + "INDEX" + "." + "price"), child.fields[0]) ]
  {
    var child := S.Serializer(T.None, [S.Plain(T.Some("price"))]);
    var prefix := T.Some(name + "." + "INDEX");
    assert child.fields[1..] == [];
    assert S.FlatFieldsOf(child.fields, prefix) == S.FlatFields(child.fields[0], prefix) + S.FlatFieldsOf([], prefix);
    assert S.GetPrefix(prefix, T.None) == prefix;
  }

  // ----- A qualified code

  /** A code saved under con.finmars gets that in front, and its file is named after the rest. */
  lemma QualifiedExample()
    ensures CodeNaming.Qualified("con", "My Bond") == "con" + ":" + "my_bond"
    ensures CodeNaming.FileName("con", "con" + ":" + "my_bond") == "my_bond"
  {
    CodeNaming.OccursMembers("con", "My Bond");
    assert "con"[0] == 'c' && 'c' !in "My Bond";
    SanitiseExample();
    CodeNaming.SanitiseClean("My Bond");
    CodeNaming.SecondPartOfQualified("con", "my_bond");
    CodeNaming.SanitisedIsKept("my_bond");
  }

  lemma SanitiseExample()
    ensures CodeNaming.Sanitise("My Bond") == "my_bond"
  {
    assert CodeNaming.Collapse("d", false) == "d";
    assert CodeNaming.Collapse("nd", false) == "nd";
    assert CodeNaming.Collapse("ond", false) == "ond";
    assert CodeNaming.Collapse("Bond", true) == "Bond";
    assert CodeNaming.Collapse(" Bond", false) == "_Bond";
    assert CodeNaming.Collapse("y Bond", false) == "y_Bond";
    assert CodeNaming.Collapse("My Bond", false) == "My_Bond";
    assert |CodeNaming.Lower("My_Bond")| == 7;
  }
}
