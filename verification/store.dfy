/**
 * The store: the users and trades tables as in-memory state, schema
 * initialisation, and the getUser / setUser operations over them, with
 * the SQL engine reduced to the set of statements it rejects on a call.
 */
module Store {

  import opened Wrappers
  import opened Tickets

  /** A user as the program passes it around; the ticket is held by value. */
  datatype User = User(name: string, password: string, wonRecently: bool,
                       pendingTrades: seq<string>, ticket: seq<int8>)

  /** A row of the users table, keyed by name. `ticket` holds the stored
    * bytes; a NULL ticket is the empty byte string. */
  datatype Row = Row(password: string, wonRecently: bool, ticket: seq<int8>)

  /** A row of the trades table: `origin` has a trade pending at `target`. */
  datatype Trade = Trade(origin: string, target: string)

  /** Which tables exist, and their rows. Names are unique in `users` and
    * (origin, target) pairs are unique in `trades`. */
  datatype Tables = Tables(hasUsers: bool, hasTrades: bool,
                           users: map<string, Row>, trades: set<Trade>)

  /** The statements the store sends to the engine. */
  datatype Stmt =
    | CreateUsers | CreateTrades | InsertSeed
    | DeleteUser | InsertUser | DeleteTrades | InsertTrades
    | SelectUser | SelectTrades

  /** The tables after an operation, and whether it reported success. */
  datatype Outcome = Outcome(tables: Tables, ok: bool)

  const AdminName := "admin"
  const AdminPassword := "ZVwXtuORgXLfaLtBIqqDwCuD4MthWHTS"

  /** The seed row: won_recently and ticket are left NULL. */
  const SeedRow := Row(AdminPassword, false, [])

  /** A table that does not exist holds no rows. */
  predicate WellFormed(t: Tables)
  {
    (!t.hasUsers ==> t.users == map[]) && (!t.hasTrades ==> t.trades == {})
  }

  predicate Distinct(s: seq<string>)
  {
    forall i, j :: 0 <= i < j < |s| ==> s[i] != s[j]
  }

  /** The trades that a user with these pending origins has at `target`. */
  function TradesFor(origins: seq<string>, target: string): set<Trade>
  {
    set o | o in origins :: Trade(o, target)
  }

  /** The origins of the trades pending at `name`. */
  function OriginsAt(trades: set<Trade>, name: string): set<string>
  {
    set x | x in trades && x.target == name :: x.origin
  }

  // ---------------------------------------------------------------------
  // Specifications of the three operations.  `faults` is the set of
  // statements the engine rejects during the call (I/O error, locked
  // file, ...); a statement on a table that does not exist is rejected too.

  /** Schema initialisation: nothing when both tables exist; otherwise
    * create the missing tables, then insert the seed row, which the
    * uniqueness of names rejects when an `admin` row is already there. */
  function InitTablesEffect(t: Tables, faults: set<Stmt>): Outcome
  {
    if t.hasUsers && t.hasTrades then Outcome(t, true)
    else if CreateUsers in faults then Outcome(t, false)
    else
      var t1 := t.(hasUsers := true);
      if CreateTrades in faults then Outcome(t1, false)
      else
        var t2 := t1.(hasTrades := true);
        if InsertSeed in faults || AdminName in t2.users then Outcome(t2, false)
        else Outcome(t2.(users := t2.users[AdminName := SeedRow]), true)
  }

  /** setUser: delete the user's row, insert the new row, delete the
    * trades at the user, insert one trade per pending origin. The first
    * rejected step ends the sequence and the steps before it stay done.
    * The trade insert is one statement, rejected as a whole when two
    * pending origins are equal (the pair would repeat). */
  function SetUserEffect(t: Tables, u: User, faults: set<Stmt>): Outcome
  {
    if DeleteUser in faults || !t.hasUsers then Outcome(t, false)
    else
      var t1 := t.(users := t.users - {u.name});
      if InsertUser in faults then Outcome(t1, false)
      else
        var t2 := t1.(users := t1.users[u.name := Row(u.password, u.wonRecently, u.ticket)]);
        if DeleteTrades in faults || !t2.hasTrades then Outcome(t2, false)
        else
          var t3 := t2.(trades := set x | x in t2.trades && x.target != u.name);
          if u.pendingTrades == [] then Outcome(t3, true)
          else if InsertTrades in faults || !Distinct(u.pendingTrades) then Outcome(t3, false)
          else Outcome(t3.(trades := t3.trades + TradesFor(u.pendingTrades, u.name)), true)
  }

  /** What getUser finds for a name, the pending origins as a set (the
    * engine decides their order). A stored ticket is read back through
    * the byte-array conversion of a ticket. */
  datatype Found = Found(password: string, wonRecently: bool, ticket: seq<int8>,
                         origins: set<string>)

  function Lookup(t: Tables, name: string, faults: set<Stmt>): Option<Found>
  {
    if SelectUser in faults || !t.hasUsers || name !in t.users then None
    else if SelectTrades in faults || !t.hasTrades then None
    else
      var row := t.users[name];
      Some(Found(row.password, row.wonRecently, StrNCopy(row.ticket, DataSize),
                 OriginsAt(t.trades, name)))
  }

  /** `u` is a user getUser may return for `name` when it finds `f`: the
    * pending origins are those of `f`, each once, in some order. */
  ghost predicate Describes(u: User, name: string, f: Found)
  {
    u.name == name && u.password == f.password && u.wonRecently == f.wonRecently &&
    u.ticket == f.ticket &&
    (forall o :: o in u.pendingTrades <==> o in f.origins) &&
    Distinct(u.pendingTrades)
  }

  /** `u` holds the fields of `f` and some of its pending origins, each
    * once: what getUser returns when fetching the trade rows stops early. */
  ghost predicate Fetched(u: User, name: string, f: Found)
  {
    u.name == name && u.password == f.password && u.wonRecently == f.wonRecently &&
    u.ticket == f.ticket &&
    (forall o :: o in u.pendingTrades ==> o in f.origins) &&
    Distinct(u.pendingTrades)
  }

  // ---------------------------------------------------------------------
  // The trade insert statement

  const TradeInsertPrefix := "insert into trades (origin, target) values "

  function Tuple(origin: string, target: string): string
  {
    "('" + origin + "', '" + target + "')"
  }

  /** One tuple per origin, in order, separated by commas. */
  function ValuesList(origins: seq<string>, target: string): string
  {
    if origins == [] then ""
    else if |origins| == 1 then Tuple(origins[0], target)
    else Tuple(origins[0], target) + "," + ValuesList(origins[1..], target)
  }

  /** Every tuple followed by a comma, as the loop appends them. */
  function Terminated(origins: seq<string>, target: string): string
  {
    if origins == [] then "" else Tuple(origins[0], target) + "," + Terminated(origins[1..], target)
  }

  /** QString::chop(1) */
  function Chop(s: string): string
  {
    if s == [] then s else s[..|s| - 1]
  }

  lemma {:induction false} TerminatedSnoc(origins: seq<string>, o: string, target: string)
    ensures Terminated(origins + [o], target) == Terminated(origins, target) + Tuple(o, target) + ","
  {
    if origins == [] {
      assert origins + [o] == [o];
    } else {
      var h := Tuple(origins[0], target) + ",";
      var rest := origins[1..];
      assert (origins + [o])[0] == origins[0];
      assert (origins + [o])[1..] == rest + [o];
      assert Terminated(origins + [o], target) == h + Terminated(rest + [o], target);
      TerminatedSnoc(rest, o, target);
      Regroup(h, Terminated(rest, target), Tuple(o, target), ",");
    }
  }

  lemma Regroup(h: string, a: string, b: string, c: string)
    ensures h + (a + b + c) == h + a + b + c
  {
  }

  /** A non-empty list ends with the closing parenthesis of its last tuple. */
  lemma {:induction false} ValuesListEnds(origins: seq<string>, target: string)
    requires origins != []
    ensures |ValuesList(origins, target)| > 0
    ensures ValuesList(origins, target)[|ValuesList(origins, target)| - 1] == ')'
  {
    if |origins| > 1 {
      ValuesListEnds(origins[1..], target);
    }
  }

  /** Dropping the last comma leaves exactly the comma-separated list. */
  lemma {:induction false} TerminatedList(origins: seq<string>, target: string)
    requires origins != []
    ensures Terminated(origins, target) == ValuesList(origins, target) + ","
  {
    if |origins| > 1 {
      TerminatedList(origins[1..], target);
    }
  }

  /** Builds the trade insert of setUser: the prefix, then a tuple and a
    * comma per origin, then the last character chopped off. */
  method TradeInsert(origins: seq<string>, target: string) returns (sql: string)
    ensures origins != [] ==> sql == TradeInsertPrefix + ValuesList(origins, target)
    ensures origins != [] ==> sql[|sql| - 1] == ')'
  {
    var insertReqs := TradeInsertPrefix;
    for i := 0 to |origins|
      invariant insertReqs == TradeInsertPrefix + Terminated(origins[..i], target)
    {
      insertReqs := insertReqs + Tuple(origins[i], target) + ",";
      TerminatedSnoc(origins[..i], origins[i], target);
      Regroup(TradeInsertPrefix, Terminated(origins[..i], target), Tuple(origins[i], target), ",");
      assert origins[..i + 1] == origins[..i] + [origins[i]];
    }
    assert origins[..|origins|] == origins;
    if origins != [] {
      TerminatedList(origins, target);
      ValuesListEnds(origins, target);
    }
    sql := Chop(insertReqs);
  }

  // Reading a VALUES list back, for names without quotes.

  /** The text before the first quote. */
  function UpToQuote(s: string): (t: string)
    ensures |t| <= |s| && t == s[..|t|]
  {
    if s == [] || s[0] == '\'' then [] else [s[0]] + UpToQuote(s[1..])
  }

  lemma {:induction false} UpToQuoteOf(a: string, rest: string)
    requires QuoteFree(a)
    requires rest != [] && rest[0] == '\''
    ensures UpToQuote(a + rest) == a
  {
    if a != [] {
      assert (a + rest)[1..] == a[1..] + rest;
      UpToQuoteOf(a[1..], rest);
    }
  }

  /** The text after `lit`, if the text starts with it. */
  function Expect(s: string, lit: string): (r: Option<string>)
    ensures r.Some? ==> |r.value| == |s| - |lit|
  {
    if |lit| <= |s| && s[..|lit|] == lit then Some(s[|lit|..]) else None
  }

  lemma ExpectOf(lit: string, rest: string)
    ensures Expect(lit + rest, lit) == Some(rest)
  {
    assert (lit + rest)[..|lit|] == lit;
  }

  /** Reads one tuple `('a', 'b')` off the front of the text. */
  function ParseTuple(s: string): (r: Option<(Trade, string)>)
    ensures r.Some? ==> |r.value.1| < |s|
  {
    match Expect(s, "('")
    case None => None
    case Some(r0) =>
      var a := UpToQuote(r0);
      match Expect(r0[|a|..], "', '")
      case None => None
      case Some(r1) =>
        var b := UpToQuote(r1);
        match Expect(r1[|b|..], "')")
        case None => None
        case Some(r2) => Some((Trade(a, b), r2))
  }

  /** The (origin, target) pairs of a list of tuples separated by commas,
    * if the text is one. */
  function ParseValues(s: string): Option<seq<Trade>>
    decreases |s|
  {
    match ParseTuple(s)
    case None => None
    case Some((x, rest)) =>
      if rest == [] then Some([x])
      else if rest[0] != ',' then None
      else
        match ParseValues(rest[1..])
        case None => None
        case Some(xs) => Some([x] + xs)
  }

  /** A quote-free field followed by a closing literal: the field is read
    * up to the quote, and the literal is consumed. */
  lemma FieldOf(a: string, lit: string, rest: string)
    requires QuoteFree(a)
    requires lit != [] && lit[0] == '\''
    ensures UpToQuote(a + (lit + rest)) == a
    ensures (a + (lit + rest))[|a|..] == lit + rest
    ensures Expect(lit + rest, lit) == Some(rest)
  {
    UpToQuoteOf(a, lit + rest);
    ExpectOf(lit, rest);
  }

  /** A tuple followed by more text, as its pieces nested to the right. */
  lemma TupleShape(o: string, t: string, tail: string)
    ensures Tuple(o, t) + tail == "('" + (o + ("', '" + (t + ("')" + tail))))
  {
  }

  /** The three steps of reading a tuple, each given by its result. */
  lemma ParseTupleSteps(s: string, r0: string, a: string, r1: string, b: string, r2: string)
    requires Expect(s, "('") == Some(r0)
    requires UpToQuote(r0) == a && Expect(r0[|a|..], "', '") == Some(r1)
    requires UpToQuote(r1) == b && Expect(r1[|b|..], "')") == Some(r2)
    ensures ParseTuple(s) == Some((Trade(a, b), r2))
  {
  }

  /** A tuple of names without quotes reads back as its pair. */
  lemma ParseTupleOf(o: string, t: string, tail: string)
    requires QuoteFree(o) && QuoteFree(t)
    ensures ParseTuple(Tuple(o, t) + tail) == Some((Trade(o, t), tail))
  {
    var y := "')" + tail;
    var x := "', '" + (t + y);
    TupleShape(o, t, tail);
    ExpectOf("('", o + x);
    FieldOf(o, "', '", t + y);
    FieldOf(t, "')", tail);
    ParseTupleSteps(Tuple(o, t) + tail, o + x, o, t + y, t, tail);
  }

  lemma ParseValuesLast(s: string, x: Trade)
    requires ParseTuple(s) == Some((x, ""))
    ensures ParseValues(s) == Some([x])
  {
  }

  lemma ParseValuesNext(s: string, x: Trade, more: string, xs: seq<Trade>)
    requires ParseTuple(s) == Some((x, "," + more))
    requires ParseValues(more) == Some(xs)
    ensures ParseValues(s) == Some([x] + xs)
  {
    assert ("," + more)[1..] == more;
  }

  /** The pairs (origin, target), one per origin, in order. */
  function Pairs(origins: seq<string>, target: string): (ps: seq<Trade>)
    ensures |ps| == |origins|
    ensures forall i :: 0 <= i < |origins| ==> ps[i] == Trade(origins[i], target)
  {
    if origins == [] then [] else [Trade(origins[0], target)] + Pairs(origins[1..], target)
  }

  /** For names without quotes, the VALUES list reads back as exactly one
    * pair (origin, target) per origin, in order. */
  lemma {:induction false} ValuesListRoundTrip(origins: seq<string>, target: string)
    requires origins != []
    requires QuoteFree(target)
    requires forall i :: 0 <= i < |origins| ==> QuoteFree(origins[i])
    ensures ParseValues(ValuesList(origins, target)) == Some(Pairs(origins, target))
  {
    var o := origins[0];
    if |origins| == 1 {
      ParseTupleOf(o, target, "");
      assert ValuesList(origins, target) == Tuple(o, target);
      assert Tuple(o, target) + "" == Tuple(o, target);
      ParseValuesLast(ValuesList(origins, target), Trade(o, target));
      assert Pairs(origins, target) == [Trade(o, target)];
    } else {
      var rest := origins[1..];
      var more := ValuesList(rest, target);
      ParseTupleOf(o, target, "," + more);
      assert Tuple(o, target) + ("," + more) == ValuesList(origins, target);
      ValuesListRoundTrip(rest, target);
      ParseValuesNext(ValuesList(origins, target), Trade(o, target), more, Pairs(rest, target));
    }
  }

  predicate DistinctTrades(ps: seq<Trade>)
  {
    forall i, j :: 0 <= i < j < |ps| ==> ps[i] != ps[j]
  }

  /** The pairs of the list are the trades `SetUserEffect` adds. */
  lemma PairsSet(origins: seq<string>, target: string)
    ensures (set x | x in Pairs(origins, target)) == TradesFor(origins, target)
  {
    var ps := Pairs(origins, target);
    forall x | x in ps
      ensures x in TradesFor(origins, target)
    {
      var i :| 0 <= i < |ps| && ps[i] == x;
      assert origins[i] in origins;
    }
    forall x | x in TradesFor(origins, target)
      ensures x in ps
    {
      var i :| 0 <= i < |origins| && origins[i] == x.origin;
      assert ps[i] == x;
    }
  }

  /** The pairs repeat exactly when the origins repeat. */
  lemma PairsDistinct(origins: seq<string>, target: string)
    ensures DistinctTrades(Pairs(origins, target)) <==> Distinct(origins)
  {
    var ps := Pairs(origins, target);
    if !Distinct(origins) {
      var i, j :| 0 <= i < j < |origins| && origins[i] == origins[j];
      assert ps[i] == ps[j];
    }
  }

  /** For names without quotes, the trade insert that setUser issues names
    * exactly the rows `SetUserEffect` adds, and `unique (origin, target)`
    * rejects it exactly when two pending origins are equal. */
  lemma TradeInsertRows(origins: seq<string>, target: string)
    requires origins != []
    requires QuoteFree(target)
    requires forall i :: 0 <= i < |origins| ==> QuoteFree(origins[i])
    ensures ParseValues(ValuesList(origins, target)).Some?
    ensures (set x | x in ParseValues(ValuesList(origins, target)).value) == TradesFor(origins, target)
    ensures DistinctTrades(ParseValues(ValuesList(origins, target)).value) <==> Distinct(origins)
  {
    ValuesListRoundTrip(origins, target);
    PairsSet(origins, target);
    PairsDistinct(origins, target);
  }

  // ---------------------------------------------------------------------
  // The database state

  class Database {
    var hasUsers: bool
    var hasTrades: bool
    var users: map<string, Row>
    var trades: set<Trade>

    function State(): Tables
      reads this
    {
      Tables(hasUsers, hasTrades, users, trades)
    }

    ghost predicate Valid()
      reads this
    {
      WellFormed(State())
    }

    /** A freshly opened database file, without tables. */
    constructor ()
      ensures Valid()
      ensures State() == Tables(false, false, map[], {})
    {
      hasUsers, hasTrades := false, false;
      users, trades := map[], {};
    }

    /** Creates the schema and the seed row unless both tables exist. */
    method InitTables(faults: set<Stmt>) returns (ok: bool)
      requires Valid()
      modifies this
      ensures Valid()
      ensures Outcome(State(), ok) == InitTablesEffect(old(State()), faults)
    {
      if hasUsers && hasTrades {
        return true;
      }
      if CreateUsers in faults {
        return false;
      }
      hasUsers := true;
      if CreateTrades in faults {
        return false;
      }
      hasTrades := true;
      if InsertSeed in faults || AdminName in users {
        return false;
      }
      users := users[AdminName := SeedRow];
      ok := true;
    }

    /** Replaces the user's row and the trades at the user. */
    method SetUser(u: User, faults: set<Stmt>) returns (ok: bool)
      requires Valid()
      modifies this
      ensures Valid()
      ensures Outcome(State(), ok) == SetUserEffect(old(State()), u, faults)
    {
      if DeleteUser in faults || !hasUsers {
        return false;
      }
      users := users - {u.name};
      if InsertUser in faults {
        return false;
      }
      users := users[u.name := Row(u.password, u.wonRecently, u.ticket)];
      if DeleteTrades in faults || !hasTrades {
        return false;
      }
      trades := set x | x in trades && x.target != u.name;
      if u.pendingTrades == [] {
        return true;
      }
      // The statement sent to the engine; TradeInsertRows relates its rows
      // to TradesFor and its uniqueness to Distinct.
      var sql := TradeInsert(u.pendingTrades, u.name);
      if InsertTrades in faults || !Distinct(u.pendingTrades) {
        return false;
      }
      trades := trades + TradesFor(u.pendingTrades, u.name);
      ok := true;
    }

    /** Looks the user up, then collects the origins of the trades at it
      * in the order the engine returns them. */
    method GetUser(name: string, faults: set<Stmt>, fetchError: Option<nat>) returns (r: Option<User>)
      ensures r.None? <==> Lookup(State(), name, faults).None?
      ensures r.Some? ==> Lookup(State(), name, faults).Some? &&
                          Fetched(r.value, name, Lookup(State(), name, faults).value)
      ensures r.Some? && fetchError.None? ==>
                Describes(r.value, name, Lookup(State(), name, faults).value)
      ensures r.Some? && fetchError.Some? ==>
                |r.value.pendingTrades| <= fetchError.value &&
                (|r.value.pendingTrades| < fetchError.value ==>
                   Describes(r.value, name, Lookup(State(), name, faults).value))
    {
      if SelectUser in faults || !hasUsers || name !in users {
        return None;
      }
      var row := users[name];
      var ticket := new Ticket.FromBytes(row.ticket);
      var user := User(name, row.password, row.wonRecently, [], ticket.data[..]);
      if SelectTrades in faults || !hasTrades {
        return None;
      }
      var rows := set x | x in trades && x.target == name;
      // query.next() turns a step error into the end of the rows.
      while rows != {} && (fetchError.None? || |user.pendingTrades| < fetchError.value)
        invariant forall x :: x in rows ==> x in trades && x.target == name
        invariant forall o :: o in user.pendingTrades <==>
                    Trade(o, name) in trades && Trade(o, name) !in rows
        invariant Distinct(user.pendingTrades)
        invariant fetchError.Some? ==> |user.pendingTrades| <= fetchError.value
        invariant user.name == name && user.password == row.password
        invariant user.wonRecently == row.wonRecently && user.ticket == ticket.data[..]
        decreases |rows|
      {
        var x :| x in rows;
        assert x == Trade(x.origin, name);
        user := user.(pendingTrades := user.pendingTrades + [x.origin]);
        rows := rows - {x};
      }
      assert forall o :: o in OriginsAt(trades, name) <==> Trade(o, name) in trades;
      r := Some(user);
    }
  }

  // ---------------------------------------------------------------------
  // Properties

  /** Once initialisation has succeeded, running it again changes nothing;
    * when both tables exist it changes nothing at all. */
  lemma InitTablesIdempotent(t: Tables, f1: set<Stmt>, f2: set<Stmt>)
    ensures t.hasUsers && t.hasTrades ==> InitTablesEffect(t, f1) == Outcome(t, true)
    ensures InitTablesEffect(t, f1).ok ==>
      InitTablesEffect(InitTablesEffect(t, f1).tables, f2) == Outcome(InitTablesEffect(t, f1).tables, true)
  {
  }

  /** On a database without tables, initialisation succeeds unless a
    * statement is rejected, and then leaves both tables with the admin row
    * as the only user and no trades. */
  lemma InitTablesSeeds(t: Tables, faults: set<Stmt>)
    requires WellFormed(t) && !t.hasUsers && !t.hasTrades
    ensures InitTablesEffect(t, faults).ok <==>
            CreateUsers !in faults && CreateTrades !in faults && InsertSeed !in faults
    ensures InitTablesEffect(t, faults).ok ==>
            InitTablesEffect(t, faults).tables ==
              Tables(true, true, map[AdminName := SeedRow], {})
  {
  }

  /** When setUser succeeds: exactly the user's row under its name, the
    * trades at the user are exactly its pending origins (the old ones are
    * gone), and every other row and trade is as before. */
  lemma SetUserReplaces(t: Tables, u: User, faults: set<Stmt>)
    ensures SetUserEffect(t, u, faults).ok ==>
      var t' := SetUserEffect(t, u, faults).tables;
      u.name in t'.users && t'.users[u.name] == Row(u.password, u.wonRecently, u.ticket) &&
      t'.users - {u.name} == t.users - {u.name} &&
      (forall o :: Trade(o, u.name) in t'.trades <==> o in u.pendingTrades) &&
      (forall x: Trade :: x.target != u.name ==> (x in t'.trades <==> x in t.trades)) &&
      t'.hasUsers == t.hasUsers && t'.hasTrades == t.hasTrades
  {
  }

  /** setUser succeeds exactly when no step is rejected. */
  lemma SetUserSucceeds(t: Tables, u: User, faults: set<Stmt>)
    ensures SetUserEffect(t, u, faults).ok <==>
      t.hasUsers && t.hasTrades &&
      DeleteUser !in faults && InsertUser !in faults && DeleteTrades !in faults &&
      (u.pendingTrades != [] ==> InsertTrades !in faults && Distinct(u.pendingTrades))
  {
  }

  /** A rejected step is not undone: a failing insert leaves the user's row
    * deleted, a failing trade delete leaves the new row in place, and a
    * failing trade insert leaves the user with no trades at all. */
  lemma SetUserNoRollback(t: Tables, u: User, faults: set<Stmt>)
    requires t.hasUsers && DeleteUser !in faults
    ensures InsertUser in faults ==> u.name !in SetUserEffect(t, u, faults).tables.users
    ensures InsertUser !in faults ==>
      SetUserEffect(t, u, faults).tables.users[u.name] == Row(u.password, u.wonRecently, u.ticket)
    ensures InsertUser !in faults && t.hasTrades && DeleteTrades !in faults ==>
      OriginsAt(SetUserEffect(t, u, faults).tables.trades, u.name) ==
        if SetUserEffect(t, u, faults).ok then set o | o in u.pendingTrades else {}
  {
    var r := SetUserEffect(t, u, faults);
    if InsertUser !in faults && t.hasTrades && DeleteTrades !in faults {
      if r.ok {
        assert forall o :: o in OriginsAt(r.tables.trades, u.name) ==> o in u.pendingTrades;
        assert forall o :: o in u.pendingTrades ==> Trade(o, u.name) in r.tables.trades;
      } else {
        assert forall x: Trade :: x in r.tables.trades ==> x.target != u.name;
      }
    }
  }

  /** After a successful setUser, getUser finds the user: same password and
    * flag, the ticket as the byte-array conversion reads it back, and
    * exactly the pending origins. */
  lemma SetThenLookup(t: Tables, u: User, faults: set<Stmt>)
    requires SetUserEffect(t, u, faults).ok
    ensures Lookup(SetUserEffect(t, u, faults).tables, u.name, {}) ==
            Some(Found(u.password, u.wonRecently, StrNCopy(u.ticket, DataSize),
                       set o | o in u.pendingTrades))
  {
    var t' := SetUserEffect(t, u, faults).tables;
    SetUserReplaces(t, u, faults);
    SetUserSucceeds(t, u, faults);
    assert forall o :: o in OriginsAt(t'.trades, u.name) <==> Trade(o, u.name) in t'.trades;
    assert OriginsAt(t'.trades, u.name) == set o | o in u.pendingTrades;
  }

  /** Full replace, not merge: after two successful setUser calls for the
    * same name, only the second call's origins are pending. */
  lemma SecondSetUserReplaces(t: Tables, u1: User, u2: User, f1: set<Stmt>, f2: set<Stmt>)
    requires u1.name == u2.name
    requires SetUserEffect(t, u1, f1).ok
    requires SetUserEffect(SetUserEffect(t, u1, f1).tables, u2, f2).ok
    ensures Lookup(SetUserEffect(SetUserEffect(t, u1, f1).tables, u2, f2).tables, u2.name, {}).Some?
    ensures Lookup(SetUserEffect(SetUserEffect(t, u1, f1).tables, u2, f2).tables, u2.name, {}).value.origins ==
            set o | o in u2.pendingTrades
  {
    SetThenLookup(SetUserEffect(t, u1, f1).tables, u2, f2);
  }

  /** In a list without repetitions every element occurs exactly once. */
  lemma {:induction false} DistinctCount(a: seq<string>, x: string)
    requires Distinct(a)
    ensures multiset(a)[x] == if x in a then 1 else 0
    decreases |a|
  {
    if a != [] {
      var tail := a[1..];
      assert a == [a[0]] + tail;
      assert forall i :: 0 <= i < |tail| ==> tail[i] == a[i + 1];
      assert a[0] !in tail;
      DistinctCount(tail, x);
    }
  }

  /** Two lists without repetitions that hold the same elements are
    * permutations of each other. */
  lemma DistinctSameElements(a: seq<string>, b: seq<string>)
    requires Distinct(a) && Distinct(b)
    requires forall x :: x in a <==> x in b
    ensures multiset(a) == multiset(b)
  {
    forall x
      ensures multiset(a)[x] == multiset(b)[x]
    {
      DistinctCount(a, x);
      DistinctCount(b, x);
    }
  }

  /** setUser followed by getUser gives back the user: the same fields,
    * and the pending origins in some order. A ticket built by a ticket
    * constructor comes back unchanged. */
  method SetThenGet(db: Database, u: User) returns (ok: bool, r: Option<User>)
    requires db.Valid()
    modifies db
    ensures ok ==> r.Some? && r.value.name == u.name && r.value.password == u.password &&
                   r.value.wonRecently == u.wonRecently &&
                   r.value.ticket == StrNCopy(u.ticket, DataSize) &&
                   multiset(r.value.pendingTrades) == multiset(u.pendingTrades)
    ensures ok && (exists src :: u.ticket == StrNCopy(src, DataSize)) ==> r.value.ticket == u.ticket
  {
    ok := db.SetUser(u, {});
    r := db.GetUser(u.name, {}, None);
    if ok {
      SetThenLookup(old(db.State()), u, {});
      SetUserSucceeds(old(db.State()), u, {});
      DistinctSameElements(r.value.pendingTrades, u.pendingTrades);
      if exists src :: u.ticket == StrNCopy(src, DataSize) {
        var src :| u.ticket == StrNCopy(src, DataSize);
        StrNCopyIdempotent(src, DataSize);
      }
    }
  }
}
