/**
 Worked examples on two concrete tables: `users`, with columns `id` (its
 primary key), `first_name` and `last_name`, and `contacts`, with columns
 `email` and `created_at` and no primary key.
 */
module Scenarios {
  import opened Assoc
  import opened Schema
  import opened OrderingEnums
  import opened ConnectionArgs
  import opened SnakeCase

  const IdColumn := Column(1, "id", "id", "id", "The user's id.", IntType)
  const FirstNameColumn := Column(2, "first_name", "firstName", "firstName", "The first name.", NonNullType(ScalarType("String")))
  const LastNameColumn := Column(3, "last_name", "lastName", "lastName", "The last name.", ScalarType("String"))
  const Users := Table(10, "User", [IdColumn, FirstNameColumn, LastNameColumn], [IdColumn])

  const EmailColumn := Column(4, "email", "email", "email", "The address.", ScalarType("String"))
  const CreatedAtColumn := Column(5, "created_at", "createdAt", "createdAt", "When it was created.", ScalarType("Datetime"))
  const Contacts := Table(11, "Contact", [EmailColumn, CreatedAtColumn], [])

  /** The first word of a name that starts with a word character ends where `WordEnd` says. */
  lemma FirstWord(s: string, j: nat)
    requires s != [] && IsWordChar(s[0]) && WordEnd(s, 1) == j
    ensures Words(s) == [s[..j]] + Words(s[j..])
  {
  }

  lemma WordsOfId()
    ensures Words("id") == ["id"]
  {
    assert WordEnd("id", 1) == 2;
    FirstWord("id", 2);
    assert "id"[..2] == "id" && "id"[2..] == [];
  }

  lemma WordsOfEmail()
    ensures Words("email") == ["email"]
  {
    assert WordEnd("email", 1) == 5;
    FirstWord("email", 5);
    assert "email"[..5] == "email" && "email"[5..] == [];
  }

  lemma WordsOfName()
    ensures Words("Name") == ["Name"]
  {
    assert WordEnd("Name", 1) == 4;
    FirstWord("Name", 4);
    assert "Name"[..4] == "Name" && "Name"[4..] == [];
  }

  /** A lower-to-upper transition starts a new word. */
  lemma WordsOfFirstName()
    ensures Words("firstName") == ["first", "Name"]
  {
    assert WordEnd("firstName", 1) == 5;
    FirstWord("firstName", 5);
    assert "firstName"[..5] == "first" && "firstName"[5..] == "Name";
    WordsOfName();
  }

  lemma WordsOfLastName()
    ensures Words("lastName") == ["last", "Name"]
  {
    assert WordEnd("lastName", 1) == 4;
    FirstWord("lastName", 4);
    assert "lastName"[..4] == "last" && "lastName"[4..] == "Name";
    WordsOfName();
  }

  lemma WordsOfCreatedAt()
    ensures Words("createdAt") == ["created", "At"]
  {
    assert WordEnd("createdAt", 1) == 7;
    FirstWord("createdAt", 7);
    assert "createdAt"[..7] == "created" && "createdAt"[7..] == "At";
    assert WordEnd("At", 1) == 2;
    FirstWord("At", 2);
    assert "At"[..2] == "At" && "At"[2..] == [];
  }

  lemma KeyOfId()
    ensures EnumKey("id") == "ID"
  {
    WordsOfId();
  }

  lemma KeyOfEmail()
    ensures EnumKey("email") == "EMAIL"
  {
    WordsOfEmail();
  }

  lemma KeyOfFirstName()
    ensures EnumKey("firstName") == "FIRST_NAME"
  {
    WordsOfFirstName();
    UpperOfFirst();
    UpperOfName();
  }

  lemma UpperOfFirst()
    ensures IsWord("first") && UpperWord("first") == "FIRST"
  {
  }

  lemma UpperOfName()
    ensures IsWord("Name") && UpperWord("Name") == "NAME"
  {
  }

  lemma UpperOfLast()
    ensures IsWord("last") && UpperWord("last") == "LAST"
  {
  }

  lemma UpperOfCreated()
    ensures IsWord("created") && UpperWord("created") == "CREATED"
  {
  }

  lemma UpperOfAt()
    ensures IsWord("At") && UpperWord("At") == "AT"
  {
  }

  lemma KeyOfLastName()
    ensures EnumKey("lastName") == "LAST_NAME"
  {
    WordsOfLastName();
    UpperOfLast();
    UpperOfName();
  }

  lemma KeyOfCreatedAt()
    ensures EnumKey("createdAt") == "CREATED_AT"
  {
    WordsOfCreatedAt();
    UpperOfCreated();
    UpperOfAt();
  }

  /** The member keys of the `users` columns, which are pairwise distinct. */
  lemma UsersMemberKeys()
    ensures EnumKey(Users.columns[0].fieldName) == "ID"
    ensures EnumKey(Users.columns[1].fieldName) == "FIRST_NAME"
    ensures EnumKey(Users.columns[2].fieldName) == "LAST_NAME"
  {
    KeyOfId();
    KeyOfFirstName();
    KeyOfLastName();
  }

  const UsersMembers: seq<(string, EnumValue)> :=
    [ ("ID", EnumValue("id", "The user's id.")),
      ("FIRST_NAME", EnumValue("first_name", "The first name.")),
      ("LAST_NAME", EnumValue("last_name", "The last name.")) ]

  lemma UsersMemberPairs()
    ensures MemberPairs(Users.columns) == UsersMembers
  {
    UsersMemberKeys();
    var ps := MemberPairs(Users.columns);
    assert ps[0] == UsersMembers[0] && ps[1] == UsersMembers[1] && ps[2] == UsersMembers[2];
  }

  /** The `users` enum: one member per column, keyed in upper snake case, valued by storage name. */
  lemma UsersOrderingEnum()
    ensures BuildOrderingEnum(Users).values == UsersMembers
  {
    UsersMemberPairs();
    UsersMemberKeysDistinct();
    FromPairsOfDistinct(UsersMembers);
  }

  lemma UsersMemberKeysDistinct()
    ensures Distinct(Keys(UsersMembers))
  {
    assert Keys(UsersMembers) == ["ID", "FIRST_NAME", "LAST_NAME"];
  }

  /** No column of `users` is named like a fixed argument. */
  lemma UsersHaveNoFixedFieldName(ignore: seq<Column>, k: string)
    requires k in FixedKeys
    ensures !IsFilterKey(Users, ignore, k)
  {
    assert forall c :: c in Users.columns ==> c.fieldName in ["id", "firstName", "lastName"];
  }

  /** With nothing ignored, the filter keys of `users` are its three field names. */
  lemma UsersFilterKeys()
    ensures FilterColumns(Users.columns, []) == Users.columns
    ensures FilterKeys(Users, []) == ["id", "firstName", "lastName"]
  {
    NothingIgnored(Users.columns);
  }

  /**
   With nothing ignored, `users` gets the seven fixed arguments and then the
   filters `id`, `firstName` and `lastName`.
   */
  lemma UsersArgumentKeys(ordering: EnumId)
    ensures Keys(Arguments(Users, ordering)) == FixedKeys + ["id", "firstName", "lastName"]
  {
    UsersFilterKeys();
    UsersNewFilterKeys();
    ArgumentKeyOrder(Users, ordering, []);
  }

  /** None of the field names of `users` is a fixed key, so all of them follow the fixed keys. */
  lemma UsersNewFilterKeys()
    ensures FreshKeys(FixedKeys, ["id", "firstName", "lastName"]) == ["id", "firstName", "lastName"]
    ensures FreshKeys(FixedKeys, ["id", "lastName"]) == ["id", "lastName"]
  {
    FreshKeysOfDistinct(FixedKeys, ["id", "firstName", "lastName"]);
    FreshKeysOfDistinct(FixedKeys, ["id", "lastName"]);
  }

  /** `orderBy` on `users` defaults to `"id"`, the storage name of its primary key. */
  lemma UsersOrderByDefault(ordering: EnumId)
    ensures Get(Arguments(Users, ordering), "orderBy").Some?
    ensures Get(Arguments(Users, ordering), "orderBy").value.defaultValue == StringDefault("id")
  {
    UsersHaveNoFixedFieldName([], "orderBy");
    OrderByDefaultsToPrimaryKey(Users, ordering, []);
  }

  /** The filter on the non-null `first_name` column accepts `null`: its type is the nullable string. */
  lemma UsersFirstNameFilter(ordering: EnumId)
    ensures Get(Arguments(Users, ordering), "firstName") ==
            Some(ArgSpec(ScalarType("String"), EqualityFilterDoc("firstName"), NoDefault))
  {
    UsersFilterKeys();
    var ps := FilterPairs(Users.columns);
    ArgumentValue(Users, ordering, [], "firstName");
    assert ps[1..] == [ps[1]] + ps[2..];
    assert LastValue(ps, "firstName") == LastValue(ps[1..], "firstName");
  }

  /** Ignoring `first_name` leaves the filter keys `id` and `lastName`. */
  lemma UsersFilterKeysIgnoringFirstName()
    ensures FilterKeys(Users, [FirstNameColumn]) == ["id", "lastName"]
  {
    var ignore := [FirstNameColumn];
    assert !IsIgnored(ignore, IdColumn) && !IsIgnored(ignore, LastNameColumn);
    assert IsIgnored(ignore, FirstNameColumn) by { assert ignore[0].id == FirstNameColumn.id; }
    assert FilterColumns(Users.columns, ignore) == [IdColumn, LastNameColumn];
  }

  /** Ignoring `first_name` drops its filter but keeps its enum member. */
  lemma UsersIgnoringFirstName(ordering: EnumId)
    ensures Keys(Arguments(Users, ordering, [FirstNameColumn])) == FixedKeys + ["id", "lastName"]
    ensures "FIRST_NAME" in Keys(BuildOrderingEnum(Users).values)
  {
    UsersFilterKeysIgnoringFirstName();
    UsersNewFilterKeys();
    ArgumentKeyOrder(Users, ordering, [FirstNameColumn]);
    UsersOrderingEnum();
  }

  /** The member keys of the `contacts` columns. */
  lemma ContactsMemberKeys()
    ensures EnumKey(Contacts.columns[0].fieldName) == "EMAIL"
    ensures EnumKey(Contacts.columns[1].fieldName) == "CREATED_AT"
  {
    KeyOfEmail();
    KeyOfCreatedAt();
  }

  /** `contacts` has no primary key, so `orderBy` defaults to `null`. */
  lemma ContactsOrderByDefault(ordering: EnumId)
    ensures Get(Arguments(Contacts, ordering), "orderBy").Some?
    ensures Get(Arguments(Contacts, ordering), "orderBy").value.defaultValue == NullDefault
  {
    assert !IsFilterKey(Contacts, [], "orderBy") by {
      assert forall c :: c in Contacts.columns ==> c.fieldName in ["email", "createdAt"];
    }
    OrderByDefaultsToPrimaryKey(Contacts, ordering, []);
  }

  const ContactsMembers: seq<(string, EnumValue)> :=
    [ ("EMAIL", EnumValue("email", "The address.")),
      ("CREATED_AT", EnumValue("created_at", "When it was created.")) ]

  lemma ContactsMemberPairs()
    ensures MemberPairs(Contacts.columns) == ContactsMembers
  {
    ContactsMemberKeys();
    var ps := MemberPairs(Contacts.columns);
    assert ps[0] == ContactsMembers[0] && ps[1] == ContactsMembers[1];
  }

  /** The `contacts` enum has one member per column. */
  lemma ContactsOrderingEnum()
    ensures BuildOrderingEnum(Contacts).values == ContactsMembers
  {
    ContactsMemberPairs();
    ContactsMemberKeysDistinct();
    FromPairsOfDistinct(ContactsMembers);
  }

  lemma ContactsMemberKeysDistinct()
    ensures Distinct(Keys(ContactsMembers))
  {
    assert Keys(ContactsMembers) == ["EMAIL", "CREATED_AT"];
  }
}
