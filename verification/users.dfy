/** The user store of the CRUD application and its request handlers.

    The `user` table is a map from primary key to row. Form submissions are
    optional strings (a key missing from `request.form` is `None`). Each
    handler returns the store after the request together with its outcome;
    a rejected or rolled-back request returns the store it was given. */
module Users {
  import opened Wrappers
  import opened Text

  /** A row of the `user` table. `createdAt` stands for the `datetime.utcnow`
      timestamp stamped on insert; the model never inspects it. */
  datatype User = User(
    id: int,
    firstName: string,
    lastName: string,
    email: string,
    age: int,
    city: string,
    createdAt: int)

  type Store = map<int, User>

  /** The five fields a form edits, once validated (age already an integer). */
  datatype Fields = Fields(firstName: string, lastName: string, email: string, age: int, city: string)

  /** A form submission; `None` for a key absent from the request. */
  datatype Form = Form(
    firstName: Option<string>,
    lastName: Option<string>,
    email: Option<string>,
    age: Option<string>,
    city: Option<string>)

  /** Why validation rejected a submission, in the order the checks run. */
  datatype ValidationError = MissingFields | InvalidAgeFormat | AgeOutOfRange | DuplicateEmail

  /** What a handler reports instead of success. */
  datatype HandlerError =
    | Invalid(reason: ValidationError)  // form redisplayed with an error notice
    | NotFound                          // `get_or_404`
    | WriteFailed                       // commit raised; session rolled back

  /** The database's answer to an insert: the primary key and creation time
      it assigned, or an exception raised by the commit. */
  datatype Commit = Assigned(id: int, createdAt: int) | CommitError

  /** The store after a request, and the request's outcome. */
  datatype Reply<T> = Reply(store: Store, result: Result<T, HandlerError>)

  // ---------------------------------------------------------------------------
  // Store invariants
  // ---------------------------------------------------------------------------

  /** Every row sits under its own primary key. */
  predicate KeysMatch(store: Store) {
    forall k :: k in store ==> store[k].id == k
  }

  /** The `unique=True` constraint on `email`. */
  predicate EmailsUnique(store: Store) {
    forall a, b :: a in store && b in store && store[a].email == store[b].email ==> a == b
  }

  /** The constraints validation enforces on the five editable fields. */
  predicate FieldsOk(f: Fields) {
    f.firstName != "" && f.lastName != "" && f.email != "" && f.city != "" && 1 <= f.age <= 150
  }

  function FieldsOf(u: User): Fields {
    Fields(u.firstName, u.lastName, u.email, u.age, u.city)
  }

  /** Every row satisfies the field constraints, sits under its own key, and
      no two rows share an email. */
  predicate ValidStore(store: Store) {
    && KeysMatch(store)
    && EmailsUnique(store)
    && forall k :: k in store ==> FieldsOk(FieldsOf(store[k]))
  }

  /** Some row other than `exempt` holds `email`. Under `EmailsUnique` this is
      exactly `User.query.filter_by(email=email).first()` returning a row whose
      id differs from `exempt`. */
  predicate EmailHeld(store: Store, email: string, exempt: Option<int>) {
    exists k :: k in store && store[k].email == email && exempt != Some(k)
  }

  // ---------------------------------------------------------------------------
  // Validation shared by add and update
  // ---------------------------------------------------------------------------

  /** Python truthiness of a form value: neither None nor the empty string.
      A whitespace-only string is present. */
  predicate Present(v: Option<string>) {
    v.Some? && v.value != ""
  }

  predicate AllPresent(form: Form) {
    Present(form.firstName) && Present(form.lastName) && Present(form.email)
    && Present(form.age) && Present(form.city)
  }

  /** The validation sequence of `add_user` (`exempt == None`) and
      `update_user` (`exempt == Some(user_id)`): missing fields, then the age
      format, then the age range, then a duplicate email. The first failing
      check decides the error. */
  function Validate(store: Store, form: Form, exempt: Option<int>): (r: Result<Fields, ValidationError>)
    ensures r == Failure(MissingFields) <==> !AllPresent(form)
    ensures r == Failure(InvalidAgeFormat) <==> AllPresent(form) && !IntLiteral(form.age.value)
    ensures r == Failure(AgeOutOfRange) <==>
      AllPresent(form) && IntLiteral(form.age.value) && !(1 <= ParseInt(form.age.value).value <= 150)
    ensures r == Failure(DuplicateEmail) <==>
      && AllPresent(form) && IntLiteral(form.age.value) && 1 <= ParseInt(form.age.value).value <= 150
      && EmailHeld(store, form.email.value, exempt)
    ensures r.Success? ==>
      && r.value == Fields(form.firstName.value, form.lastName.value, form.email.value,
                           ParseInt(form.age.value).value, form.city.value)
      && FieldsOk(r.value)
      && !EmailHeld(store, r.value.email, exempt)
  {
    if !AllPresent(form) then Failure(MissingFields)
    else
      match ParseInt(form.age.value)
      case None => Failure(InvalidAgeFormat)
      case Some(age) =>
        if age <= 0 || age > 150 then Failure(AgeOutOfRange)
        else if EmailHeld(store, form.email.value, exempt) then Failure(DuplicateEmail)
        else Success(Fields(form.firstName.value, form.lastName.value, form.email.value, age, form.city.value))
  }

  // ---------------------------------------------------------------------------
  // Store writes
  // ---------------------------------------------------------------------------

  function NewUser(id: int, f: Fields, createdAt: int): User {
    User(id, f.firstName, f.lastName, f.email, f.age, f.city, createdAt)
  }

  /** `session.add` followed by `commit`: the row appears under the key the
      database assigned, or the commit raises (an exception, or a key that is
      already taken) and the rollback leaves the store as it was. */
  function InsertRow(store: Store, c: Commit, f: Fields): (r: Option<Store>)
    ensures r.None? <==> c.CommitError? || c.id in store
    ensures r.Some? ==>
      && r.value.Keys == store.Keys + {c.id}
      && r.value[c.id] == NewUser(c.id, f, c.createdAt)
      && forall k :: k in store ==> r.value[k] == store[k]
  {
    if c.CommitError? || c.id in store then None
    else Some(store[c.id := NewUser(c.id, f, c.createdAt)])
  }

  /** Inserting a row whose email nobody holds keeps keys matching and
      emails unique, and keeps the store valid when the row itself is. */
  lemma InsertKeepsInvariants(store: Store, c: Commit, f: Fields)
    requires KeysMatch(store) && EmailsUnique(store) && !EmailHeld(store, f.email, None)
    requires InsertRow(store, c, f).Some?
    ensures KeysMatch(InsertRow(store, c, f).value) && EmailsUnique(InsertRow(store, c, f).value)
    ensures ValidStore(store) && FieldsOk(f) ==> ValidStore(InsertRow(store, c, f).value)
  {
  }

  // ---------------------------------------------------------------------------
  // Request handlers
  // ---------------------------------------------------------------------------

  /** POST /add. On success the reply carries the new row's id. */
  function AddUser(store: Store, form: Form, c: Commit): (r: Reply<int>)
    ensures r.result.Failure? ==> r.store == store
    ensures (r.result.Failure? && r.result.error.Invalid?) <==> Validate(store, form, None).Failure?
    ensures r.result.Failure? && r.result.error.Invalid? ==>
      r.result.error.reason == Validate(store, form, None).error
    ensures r.result == Failure(WriteFailed) <==>
      Validate(store, form, None).Success? && (c.CommitError? || c.id in store)
    ensures r.result.Success? ==>
      && var id := r.result.value;
      && c == Assigned(id, c.createdAt) && id !in store
      && r.store.Keys == store.Keys + {id}
      && (forall k :: k in store ==> r.store[k] == store[k])
      && r.store[id] == User(id, form.firstName.value, form.lastName.value, form.email.value,
                             ParseInt(form.age.value).value, form.city.value, c.createdAt)
    ensures r.result != Failure(NotFound)
    ensures ValidStore(store) ==> ValidStore(r.store)
  {
    match Validate(store, form, None)
    case Failure(e) => Reply(store, Failure(Invalid(e)))
    case Success(f) =>
      match InsertRow(store, c, f)
      case None => Reply(store, Failure(WriteFailed))
      case Some(s') =>
        assert ValidStore(store) ==> ValidStore(s') by {
          if ValidStore(store) { InsertKeepsInvariants(store, c, f); }
        }
        Reply(s', Success(c.id))
  }

  /** GET /view/<id>. */
  function ViewUser(store: Store, id: int): (r: Result<User, HandlerError>)
    ensures r.Success? <==> id in store
    ensures r.Success? ==> r.value == store[id]
    ensures r.Failure? ==> r.error == NotFound
  {
    if id in store then Success(store[id]) else Failure(NotFound)
  }

  /** POST /update/<id>. `committed` is whether the database accepted the
      commit. On success the reply carries the updated row. */
  function UpdateUser(store: Store, id: int, form: Form, committed: bool): (r: Reply<User>)
    ensures id !in store ==> r == Reply(store, Failure(NotFound))
    ensures r.result.Failure? ==> r.store == store
    ensures id in store ==>
      ((r.result.Failure? && r.result.error.Invalid?) <==> Validate(store, form, Some(id)).Failure?)
    ensures r.result.Failure? && r.result.error.Invalid? ==>
      r.result.error.reason == Validate(store, form, Some(id)).error
    ensures r.result == Failure(WriteFailed) <==>
      id in store && Validate(store, form, Some(id)).Success? && !committed
    ensures r.result.Success? <==> id in store && Validate(store, form, Some(id)).Success? && committed
    ensures r.result.Success? ==>
      && id in store
      && r.store.Keys == store.Keys
      && (forall k :: k in store && k != id ==> r.store[k] == store[k])
      && r.result.value == r.store[id]
      && r.store[id] == store[id].(firstName := form.firstName.value, lastName := form.lastName.value,
                                   email := form.email.value, age := ParseInt(form.age.value).value,
                                   city := form.city.value)
    ensures ValidStore(store) ==> ValidStore(r.store)
  {
    if id !in store then Reply(store, Failure(NotFound))
    else
      match Validate(store, form, Some(id))
      case Failure(e) => Reply(store, Failure(Invalid(e)))
      case Success(f) =>
        if !committed then Reply(store, Failure(WriteFailed))
        else
          var u := store[id].(firstName := f.firstName, lastName := f.lastName, email := f.email,
                              age := f.age, city := f.city);
          var s' := store[id := u];
          assert ValidStore(store) ==> EmailsUnique(s') by {
            if ValidStore(store) {
              forall a, b | a in s' && b in s' && s'[a].email == s'[b].email
                ensures a == b
              {
                if a != id && b != id {
                  assert store[a].email == store[b].email;
                }
              }
            }
          }
          Reply(s', Success(u))
  }

  /** GET /delete/<id>. `committed` is whether the database accepted the
      commit. On success the reply carries the deleted row. */
  function DeleteUser(store: Store, id: int, committed: bool): (r: Reply<User>)
    ensures id !in store ==> r == Reply(store, Failure(NotFound))
    ensures id in store && !committed ==> r == Reply(store, Failure(WriteFailed))
    ensures r.result.Success? <==> id in store && committed
    ensures r.result.Failure? ==> r.store == store
    ensures r.result.Success? ==>
      && id in store && r.result.value == store[id]
      && r.store.Keys == store.Keys - {id}
      && forall k :: k in r.store ==> r.store[k] == store[k]
    ensures ValidStore(store) ==> ValidStore(r.store)
  {
    if id !in store then Reply(store, Failure(NotFound))
    else if !committed then Reply(store, Failure(WriteFailed))
    else Reply(store - {id}, Success(store[id]))
  }

  // ---------------------------------------------------------------------------
  // Listing and search
  // ---------------------------------------------------------------------------

  ghost predicate Ascending(users: seq<User>) {
    forall i, j :: 0 <= i < j < |users| ==> users[i].id < users[j].id
  }

  ghost predicate Stored(u: User, store: Store) {
    u.id in store && store[u.id] == u
  }

  /** `users` lists every row of `store` exactly once, in key order. */
  ghost predicate Lists(users: seq<User>, store: Store) {
    && Ascending(users)
    && (forall i :: 0 <= i < |users| ==> Stored(users[i], store))
    && (forall k :: k in store ==> exists i :: 0 <= i < |users| && users[i].id == k)
  }

  /** Appending a row whose id exceeds every listed id keeps the listing ascending. */
  lemma AppendAscending(users: seq<User>, u: User)
    requires Ascending(users) && forall i :: 0 <= i < |users| ==> users[i].id < u.id
    ensures Ascending(users + [u])
  {
  }

  /** Some element of a non-empty set. */
  lemma Pick(s: set<int>) returns (y: int)
    requires s != {}
    ensures y in s
  {
    if forall x :: x !in s { assert false; }
    y :| y in s;
  }

  /** The least element of a non-empty set of keys. */
  lemma {:induction false} Minimum(s: set<int>) returns (m: int)
    requires s != {}
    ensures m in s && forall x :: x in s ==> m <= x
    decreases s
  {
    var y := Pick(s);
    var s' := s - {y};
    if s' == {} {
      m := y;
      forall x | x in s ensures m <= x { assert x !in s'; }
    } else {
      var m' := Minimum(s');
      m := if y < m' then y else m';
      forall x | x in s ensures m <= x { if x != y { assert x in s'; } }
    }
  }

  /** Loop state of `Index`: `users` lists, in key order, exactly the rows
      whose keys are no longer in `rest`, and all of them precede `rest`. */
  ghost predicate ListedExcept(users: seq<User>, store: Store, rest: set<int>) {
    && rest <= store.Keys
    && Ascending(users)
    && (forall i :: 0 <= i < |users| ==> Stored(users[i], store) && users[i].id !in rest)
    && (forall i, k :: 0 <= i < |users| && k in rest ==> users[i].id < k)
    && (forall k :: k in store && k !in rest ==> exists i :: 0 <= i < |users| && users[i].id == k)
  }

  /** Moving the least remaining key to the end of the listing keeps the loop state. */
  lemma ListLeast(users: seq<User>, store: Store, rest: set<int>, m: int)
    requires KeysMatch(store) && ListedExcept(users, store, rest)
    requires m in rest && forall x :: x in rest ==> m <= x
    ensures ListedExcept(users + [store[m]], store, rest - {m})
  {
    var users' := users + [store[m]];
    var rest' := rest - {m};
    AppendAscending(users, store[m]);
    assert forall i :: 0 <= i < |users| ==> users'[i] == users[i];
    assert users'[|users|] == store[m];
    forall k | k in store && k !in rest'
      ensures exists i :: 0 <= i < |users'| && users'[i].id == k
    {
      if k == m {
        assert users'[|users|].id == k;
      } else {
        var i :| 0 <= i < |users| && users[i].id == k;
        assert users'[i].id == k;
      }
    }
  }

  /** GET /: every stored row, in primary-key order (the order SQLite scans a
      rowid table). */
  method Index(store: Store) returns (users: seq<User>)
    requires KeysMatch(store)
    ensures Lists(users, store)
  {
    users := [];
    var rest := store.Keys;
    while rest != {}
      invariant ListedExcept(users, store, rest)
      decreases rest
    {
      ghost var least := Minimum(rest);
      var m :| m in rest && forall x :: x in rest ==> m <= x;
      ListLeast(users, store, rest, m);
      users := users + [store[m]];
      rest := rest - {m};
    }
  }

  /** The search test on one row: a case-insensitive substring of the first
      name, the last name or the city. */
  predicate Matches(u: User, q: string) {
    ContainsIgnoringCase(u.firstName, q) || ContainsIgnoringCase(u.lastName, q)
    || ContainsIgnoringCase(u.city, q)
  }

  /** Reference definition of a search hit. */
  ghost predicate IsHit(u: User, q: string) {
    OccursIgnoringCase(u.firstName, q) || OccursIgnoringCase(u.lastName, q)
    || OccursIgnoringCase(u.city, q)
  }

  lemma MatchesIsHit(u: User, q: string)
    ensures Matches(u, q) <==> IsHit(u, q)
  {
    ContainsIgnoringCaseCorrect(u.firstName, q);
    ContainsIgnoringCaseCorrect(u.lastName, q);
    ContainsIgnoringCaseCorrect(u.city, q);
  }

  /** The filter as the query is written: `ilike('%' + query + '%')` on each
      of the three fields, so `%` and `_` typed into the query act as wildcards. */
  predicate LikeHit(u: User, q: string) {
    LikeMatch(u.firstName, "%" + q + "%") || LikeMatch(u.lastName, "%" + q + "%")
    || LikeMatch(u.city, "%" + q + "%")
  }

  /** For a query without wildcard characters the written filter is exactly
      the case-insensitive substring test. */
  lemma LikeHitWithoutWildcards(u: User, q: string)
    requires NoWildcards(q)
    ensures LikeHit(u, q) <==> IsHit(u, q)
  {
    LikeContainsIsSubstring(u.firstName, q);
    LikeContainsIsSubstring(u.lastName, q);
    LikeContainsIsSubstring(u.city, q);
  }

  /** The query "_" becomes the pattern '%_%', which every non-empty field
      matches: the written filter finds a user none of whose fields contains
      an underscore. */
  lemma UnderscoreQueryMatchesAnyone(u: User)
    requires u.firstName != ""
    requires NoWildcards(u.firstName) && NoWildcards(u.lastName) && NoWildcards(u.city)
    ensures LikeHit(u, "_") && !IsHit(u, "_")
  {
    assert "%" + "_" + "%" == "%" + "_%";
    LikeLeadingPercent(u.firstName, "_%");
    assert "_%"[1..] == "%";
    TrailingPercentMatchesAll(u.firstName[1..]);
    assert u.firstName[0..] == u.firstName;
    assert LikeMatch(u.firstName[0..], "_%");
    forall f | f in [u.firstName, u.lastName, u.city]
      ensures !OccursIgnoringCase(f, "_")
    {
      assert forall i :: 0 <= i < |f| ==> Fold(f[i]) != Fold("_"[0]);
    }
  }

  /** `users` lists, in key order, exactly the rows of `store` that `q` hits. */
  ghost predicate ListsHits(users: seq<User>, store: Store, q: string) {
    && Ascending(users)
    && (forall i :: 0 <= i < |users| ==> Stored(users[i], store) && IsHit(users[i], q))
    && (forall k :: k in store && IsHit(store[k], q) ==> exists i :: 0 <= i < |users| && users[i].id == k)
  }

  /** Loop state of `SearchUsers`: `users` holds, in order, the hits among
      the first `n` rows of the listing `all`, and all of them precede the rest. */
  ghost predicate FilteredUpTo(users: seq<User>, all: seq<User>, n: int, store: Store, q: string) {
    && 0 <= n <= |all|
    && Ascending(users)
    && (forall i :: 0 <= i < |users| ==> Stored(users[i], store) && IsHit(users[i], q))
    && (forall i, m :: 0 <= i < |users| && n <= m < |all| ==> users[i].id < all[m].id)
    && (forall m :: 0 <= m < n && IsHit(all[m], q) ==> exists i :: 0 <= i < |users| && users[i].id == all[m].id)
  }

  lemma FilterNext(users: seq<User>, all: seq<User>, n: int, store: Store, q: string)
    requires Lists(all, store) && FilteredUpTo(users, all, n, store, q) && n < |all|
    ensures IsHit(all[n], q) ==> FilteredUpTo(users + [all[n]], all, n + 1, store, q)
    ensures !IsHit(all[n], q) ==> FilteredUpTo(users, all, n + 1, store, q)
  {
    if IsHit(all[n], q) {
      var users' := users + [all[n]];
      assert forall i :: 0 <= i < |users| ==> users'[i] == users[i];
      assert users'[|users|] == all[n];
      AppendAscending(users, all[n]);
      forall i, m | 0 <= i < |users'| && n + 1 <= m < |all|
        ensures users'[i].id < all[m].id
      {
        if i == |users| {
          assert all[n].id < all[m].id;
        } else {
          assert users[i].id < all[m].id;
        }
      }
      forall m | 0 <= m < n + 1 && IsHit(all[m], q)
        ensures exists i :: 0 <= i < |users'| && users'[i].id == all[m].id
      {
        if m == n {
          assert users'[|users|].id == all[m].id;
        } else {
          var i :| 0 <= i < |users| && users[i].id == all[m].id;
          assert users'[i].id == all[m].id;
        }
      }
    }
  }

  lemma FilterDone(users: seq<User>, all: seq<User>, store: Store, q: string)
    requires Lists(all, store) && FilteredUpTo(users, all, |all|, store, q)
    ensures ListsHits(users, store, q)
  {
  }

  /** GET /search?query=...: an absent or empty query finds nothing; any other
      query finds exactly the rows it hits, in key order. */
  method SearchUsers(store: Store, query: Option<string>) returns (users: seq<User>)
    requires KeysMatch(store)
    ensures query.GetOr("") == "" ==> users == []
    ensures query.GetOr("") != "" ==> ListsHits(users, store, query.GetOr(""))
  {
    var q := query.GetOr("");
    users := [];
    if q == "" {
      return;
    }
    var all := Index(store);
    var n := 0;
    while n < |all|
      invariant FilteredUpTo(users, all, n, store, q)
    {
      MatchesIsHit(all[n], q);
      FilterNext(users, all, n, store, q);
      if Matches(all[n], q) {
        users := users + [all[n]];
      }
      n := n + 1;
    }
    FilterDone(users, all, store, q);
  }

  // ---------------------------------------------------------------------------
  // Properties across handlers
  // ---------------------------------------------------------------------------

  function FormOf(firstName: string, lastName: string, email: string, age: string, city: string): Form {
    Form(Some(firstName), Some(lastName), Some(email), Some(age), Some(city))
  }

  /** `int()` reads the decimal text of a small `n` back as `n`. */
  lemma ReadsBack(n: int, s: string)
    requires -1000 < n < 1000 && IntToString(n) == s
    ensures ParseInt(s) == Some(n)
  {
    SmallDigits(if n < 0 then -n else n);
    ParseIntToString(n);
  }

  lemma ReadsZero() ensures ParseInt("0") == Some(0)
  {
  }

  lemma ReadsOneFiftyOne() ensures ParseInt("151") == Some(151)
  {
    assert DigitChar(1) == '1' && DigitChar(5) == '5';
    assert NatToDigits(1) == "1";
    assert NatToDigits(15) == "15";
    assert NatToDigits(151) == "151";
    ReadsBack(151, "151");
  }

  lemma ReadsMinusThree() ensures ParseInt("-3") == Some(-3)
  {
  }

  lemma RejectsLetters() ensures ParseInt("abc") == None
  {
  }

  lemma RejectsBlank() ensures ParseInt(" ") == None
  {
  }

  /** What `int()` makes of the ages used in the examples below. */
  lemma SampleAges()
    ensures ParseInt("0") == Some(0) && ParseInt("151") == Some(151) && ParseInt("-3") == Some(-3)
    ensures ParseInt("abc") == None && ParseInt(" ") == None
  {
    ReadsZero();
    ReadsOneFiftyOne();
    ReadsMinusThree();
    RejectsLetters();
    RejectsBlank();
  }

  /** Valid fields, typed into the form with the age in decimal, pass
      validation unchanged whenever no other row holds their email. */
  lemma FieldsValidate(store: Store, f: Fields, exempt: Option<int>)
    requires FieldsOk(f) && !EmailHeld(store, f.email, exempt)
    ensures Validate(store, FormOf(f.firstName, f.lastName, f.email, IntToString(f.age), f.city), exempt) == Success(f)
  {
    ReadsBack(f.age, IntToString(f.age));
    assert AllPresent(FormOf(f.firstName, f.lastName, f.email, IntToString(f.age), f.city));
  }

  /** A complete form whose age parses to a number outside 1..150 gets the range error. */
  lemma RangeError(store: Store, form: Form, exempt: Option<int>)
    requires AllPresent(form)
    requires ParseInt(form.age.value).Some? && !(1 <= ParseInt(form.age.value).value <= 150)
    ensures Validate(store, form, exempt) == Failure(AgeOutOfRange)
  {
  }

  /** An age that parses but lies outside 1..150 is a range error, not a
      format error: "0", "151" and "-3" all pass the format check. */
  lemma OutOfRangeAgesAreRangeErrors(store: Store, firstName: string, lastName: string, email: string, city: string, exempt: Option<int>)
    requires firstName != "" && lastName != "" && email != "" && city != ""
    ensures Validate(store, FormOf(firstName, lastName, email, "0", city), exempt) == Failure(AgeOutOfRange)
    ensures Validate(store, FormOf(firstName, lastName, email, "151", city), exempt) == Failure(AgeOutOfRange)
    ensures Validate(store, FormOf(firstName, lastName, email, "-3", city), exempt) == Failure(AgeOutOfRange)
  {
    SampleAges();
    RangeError(store, FormOf(firstName, lastName, email, "0", city), exempt);
    RangeError(store, FormOf(firstName, lastName, email, "151", city), exempt);
    RangeError(store, FormOf(firstName, lastName, email, "-3", city), exempt);
  }

  /** Only an age `int()` rejects is a format error; the missing-field check
      runs first and a whitespace-only value counts as present. */
  lemma FormatErrorsAfterMissingFields(store: Store, firstName: string, lastName: string, email: string, city: string, exempt: Option<int>)
    requires firstName != "" && lastName != "" && email != "" && city != ""
    ensures Validate(store, FormOf(firstName, lastName, email, "abc", city), exempt) == Failure(InvalidAgeFormat)
    ensures Validate(store, FormOf(firstName, lastName, email, " ", city), exempt) == Failure(InvalidAgeFormat)
    ensures Validate(store, FormOf(" ", lastName, email, "abc", city), exempt) == Failure(InvalidAgeFormat)
    ensures Validate(store, FormOf(firstName, lastName, email, "", city), exempt) == Failure(MissingFields)
  {
  }

  /** Creating a user and then viewing it by id returns the submitted fields. */
  lemma AddThenView(store: Store, form: Form, c: Commit)
    requires AddUser(store, form, c).result.Success?
    ensures var r := AddUser(store, form, c);
      ViewUser(r.store, r.result.value)
      == Success(User(r.result.value, form.firstName.value, form.lastName.value, form.email.value,
                      ParseInt(form.age.value).value, form.city.value, c.createdAt))
  {
  }

  /** Adding the same email twice: the first add stores it, the second is
      rejected as a duplicate, and exactly one row then holds the email. */
  lemma SecondAddWithSameEmailRejected(store: Store, form1: Form, form2: Form, c1: Commit, c2: Commit)
    requires ValidStore(store)
    requires AddUser(store, form1, c1).result.Success?
    requires AllPresent(form2) && form2.email == form1.email
    requires var a := ParseInt(form2.age.value); a.Some? && 1 <= a.value <= 150
    ensures var r1 := AddUser(store, form1, c1);
      var r2 := AddUser(r1.store, form2, c2);
      && r2 == Reply(r1.store, Failure(Invalid(DuplicateEmail)))
      && (exists k :: k in r2.store && r2.store[k].email == form1.email.value)
      && (forall a, b ::
            (a in r2.store && b in r2.store && r2.store[a].email == form1.email.value
             && r2.store[b].email == form1.email.value) ==> a == b)
  {
  }

  /** On update, resubmitting the user's own email is not a duplicate. */
  lemma OwnEmailIsNotDuplicate(store: Store, id: int)
    requires EmailsUnique(store) && id in store
    ensures !EmailHeld(store, store[id].email, Some(id))
  {
  }

  /** Updating a user to another user's email is rejected and leaves the
      store, and so both users, unchanged. */
  lemma UpdateToTakenEmailRejected(store: Store, id: int, other: int, form: Form, committed: bool)
    requires id in store && other in store && id != other
    requires AllPresent(form) && form.email == Some(store[other].email)
    requires var a := ParseInt(form.age.value); a.Some? && 1 <= a.value <= 150
    ensures UpdateUser(store, id, form, committed) == Reply(store, Failure(Invalid(DuplicateEmail)))
  {
  }

  /** The scenario of the application's add test: posting the test user to
      an empty store leaves exactly that user, with age the integer 18. */
  lemma AddTestUserScenario(createdAt: int)
    ensures var r := AddUser(map[], FormOf("test", "user", "test@user.com", "18", "Islamabad"), Assigned(1, createdAt));
      r == Reply(map[1 := User(1, "test", "user", "test@user.com", 18, "Islamabad", createdAt)], Success(1))
  {
    assert DigitChar(1) == '1' && DigitChar(8) == '8';
    assert NatToDigits(1) == "1";
    assert NatToDigits(18) == "18";
    ReadsBack(18, "18");
    var f := FormOf("test", "user", "test@user.com", "18", "Islamabad");
    assert AllPresent(f);
    assert Validate(map[], f, None) == Success(Fields("test", "user", "test@user.com", 18, "Islamabad"));
  }

  /** A mutating request, with the database's answer to its commit. */
  datatype Request =
    | Add(form: Form, commit: Commit)
    | Update(id: int, form: Form, committed: bool)
    | Delete(id: int, committed: bool)

  function Handle(store: Store, req: Request): Store {
    match req
    case Add(form, c) => AddUser(store, form, c).store
    case Update(id, form, ok) => UpdateUser(store, id, form, ok).store
    case Delete(id, ok) => DeleteUser(store, id, ok).store
  }

  function Replay(store: Store, reqs: seq<Request>): Store
    decreases |reqs|
  {
    if reqs == [] then store else Replay(Handle(store, reqs[0]), reqs[1..])
  }

  /** Any sequence of adds, updates and deletes keeps every row valid, every
      row under its own key, and every email unique. */
  lemma {:induction false} ReplayKeepsValid(store: Store, reqs: seq<Request>)
    requires ValidStore(store)
    ensures ValidStore(Replay(store, reqs))
    decreases |reqs|
  {
    if reqs != [] {
      ReplayKeepsValid(Handle(store, reqs[0]), reqs[1..]);
    }
  }
}
