/** The `users` table as the registration handler sees it: rows keyed by
    email, and the serial sequence that hands out ids. */
module UserStore {

  /** One stored user; `password` holds the hashed credential. */
  datatype UserRow = UserRow(id: nat, email: string, password: string)

  /** `rows` is keyed by email; `nextId` is the next value of the id sequence. */
  datatype Store = Store(rows: map<string, UserRow>, nextId: nat)

  /** Every row sits under its own email, every id was drawn from the
      sequence, and no two rows share an id. */
  ghost predicate Valid(s: Store) {
    && (forall e :: e in s.rows ==> s.rows[e].email == e && s.rows[e].id < s.nextId)
    && (forall e1, e2 :: e1 in s.rows && e2 in s.rows && e1 != e2 ==> s.rows[e1].id != s.rows[e2].id)
  }

  /** A freshly created table: no rows, the sequence starting at 1. */
  function Empty(): (s: Store)
    ensures Valid(s)
    ensures |s.rows| == 0
  {
    Store(map[], 1)
  }

  datatype Inserted = Inserted(row: UserRow, store: Store)

  /** Inserts a user row and returns it with the id the sequence assigned.
      The handler only inserts an email it has just found absent. */
  function Insert(s: Store, email: string, password: string): (r: Inserted)
    requires email !in s.rows
    ensures r.row.email == email && r.row.password == password
    ensures email in r.store.rows && r.store.rows[email] == r.row
    ensures forall e :: e != email ==> (e in r.store.rows <==> e in s.rows)
    ensures forall e :: e in s.rows ==> r.store.rows[e] == s.rows[e]
    ensures |r.store.rows| == |s.rows| + 1
    ensures Valid(s) ==> Valid(r.store)
    ensures Valid(s) ==> forall e :: e in s.rows ==> s.rows[e].id != r.row.id
  {
    var row := UserRow(s.nextId, email, password);
    Inserted(row, Store(s.rows[email := row], s.nextId + 1))
  }
}
