/**
 The administrator's session list: status labels, which row action a
 session offers, the name shown for it, and the newest-first order of the
 rows.
 */
module SessionsTab {
  import opened Common
  import opened Domain

  /** The names `STATUS_LABELS`, a plain object, inherits from
      `Object.prototype`: looking one of them up finds a function (or, for
      `__proto__`, the prototype object) instead of `undefined`. */
  predicate InheritedName(status: string) {
    status in {"constructor", "toString", "toLocaleString", "valueOf", "hasOwnProperty",
               "isPrototypeOf", "propertyIsEnumerable", "__proto__",
               "__defineGetter__", "__defineSetter__", "__lookupGetter__", "__lookupSetter__"}
  }

  /** `STATUS_LABELS[status] ?? status`, as text on the page. An inherited
      name finds a non-nullish member, so the raw status is not shown; a
      function renders as no text, which is what this returns for every
      inherited name. */
  function StatusLabel(status: string): (r: string)
    ensures status == CREATED ==> r == "Creada"
    ensures status == STARTED ==> r == "Iniciada"
    ensures status == COMPLETED ==> r == "Completada"
    ensures status == REVOKED ==> r == "Revocada"
    ensures InheritedName(status) ==> r == ""
    ensures status !in {CREATED, STARTED, COMPLETED, REVOKED} && !InheritedName(status) ==> r == status
  {
    if status == CREATED then "Creada"
    else if status == STARTED then "Iniciada"
    else if status == COMPLETED then "Completada"
    else if status == REVOKED then "Revocada"
    else if InheritedName(status) then ""
    else status
  }

  /** Reads a shown status text back: a label names its status, any other
      text is the status itself. */
  function StatusOfLabel(shown: string): string {
    if shown == "Creada" then CREATED
    else if shown == "Iniciada" then STARTED
    else if shown == "Completada" then COMPLETED
    else if shown == "Revocada" then REVOKED
    else shown
  }

  /** The shown text identifies the status, for every status that is
      neither spelled like one of the four labels nor an inherited name. */
  lemma StatusLabelRoundTrip(status: string)
    requires status !in {"Creada", "Iniciada", "Completada", "Revocada"} && !InheritedName(status)
    ensures StatusOfLabel(StatusLabel(status)) == status
  {
  }

  /** So two such statuses with the same text are the same status. */
  lemma StatusLabelInjective(a: string, b: string)
    requires a !in {"Creada", "Iniciada", "Completada", "Revocada"} && !InheritedName(a)
    requires b !in {"Creada", "Iniciada", "Completada", "Revocada"} && !InheritedName(b)
    requires StatusLabel(a) == StatusLabel(b)
    ensures a == b
  {
    StatusLabelRoundTrip(a);
    StatusLabelRoundTrip(b);
  }

  /** An unknown status spelled like a label is shown like the known one. */
  lemma LabelSpelledStatusCollides()
    ensures StatusLabel("Creada") == StatusLabel(CREATED) && "Creada" != CREATED
  {
  }

  /** Two inherited names are shown alike, so the restriction is needed too. */
  lemma InheritedNamesCollide()
    ensures StatusLabel("toString") == StatusLabel("valueOf") && "toString" != "valueOf"
  {
  }

  /** The "Revocar" button: any session that is neither revoked nor completed. */
  predicate CanRevoke(s: Session) {
    s.status != REVOKED && s.status != COMPLETED
  }

  /** The "Reiniciar" button: completed sessions only. */
  predicate CanReset(s: Session) {
    s.status == COMPLETED
  }

  /** A row never offers both actions; a revoked session offers neither, and
      every other session offers exactly one. */
  lemma RowActions(s: Session)
    ensures !(CanRevoke(s) && CanReset(s))
    ensures s.status == REVOKED <==> !CanRevoke(s) && !CanReset(s)
  {
  }

  /** `users.find(entry => entry.id === session.userId)`. */
  function FindUser(users: seq<User>, id: int): (r: Option<User>)
    ensures r.None? <==> forall k :: 0 <= k < |users| ==> users[k].id != id
    ensures r.Some? ==> exists k :: 0 <= k < |users| && users[k] == r.value && r.value.id == id &&
                          forall j :: 0 <= j < k ==> users[j].id != id
  {
    if |users| == 0 then None
    else if users[0].id == id then Some(users[0])
    else
      match FindUser(users[1..], id)
      case None => None
      case Some(u) =>
        assert exists k :: 0 <= k < |users| && users[k] == u && u.id == id &&
                           forall j :: 0 <= j < k ==> users[j].id != id by {
          var k :| 0 <= k < |users[1..]| && users[1..][k] == u && u.id == id &&
            forall j :: 0 <= j < k ==> users[1..][j].id != id;
          assert users[k + 1] == u;
          assert forall j :: 1 <= j < k + 1 ==> users[j] == users[1..][j - 1];
        }
        Some(u)
  }

  /** The name on a row: the owner's display name when the owner is listed,
      else the session's own display name, else "Usuario". */
  function DisplayName(users: seq<User>, s: Session): (r: string)
    ensures (exists k :: 0 <= k < |users| && users[k].id == s.userId) ==>
      exists k :: 0 <= k < |users| && users[k].id == s.userId && r == users[k].displayName
    ensures (forall k :: 0 <= k < |users| ==> users[k].id != s.userId) ==>
      r == s.displayName.GetOr("Usuario")
  {
    match FindUser(users, s.userId)
    case Some(u) => u.displayName
    case None => s.displayName.GetOr("Usuario")
  }

  /** Newest first: creation times never increase along the list. */
  predicate NewestFirst(s: seq<Session>) {
    forall i, j :: 0 <= i < j < |s| ==> s[i].createdAt >= s[j].createdAt
  }

  /** The sessions created at time `t`, in list order. */
  function CreatedAt(s: seq<Session>, t: int): seq<Session> {
    if |s| == 0 then [] else (if s[0].createdAt == t then [s[0]] else []) + CreatedAt(s[1..], t)
  }

  /** Places `x` before the first session that is not newer than it. */
  function Insert(x: Session, s: seq<Session>): (r: seq<Session>)
    ensures multiset(r) == multiset(s) + multiset{x}
  {
    if |s| == 0 then [x]
    else if s[0].createdAt <= x.createdAt then [x] + s
    else
      assert s == [s[0]] + s[1..];
      [s[0]] + Insert(x, s[1..])
  }

  lemma {:induction false} InsertNewestFirst(x: Session, s: seq<Session>)
    requires NewestFirst(s)
    ensures NewestFirst(Insert(x, s))
  {
    if |s| == 0 {
    } else if s[0].createdAt <= x.createdAt {
      ConsNewestFirst(x, s);
    } else {
      var tail := Insert(x, s[1..]);
      InsertNewestFirst(x, s[1..]);
      InsertBounded(x, s[1..], s[0].createdAt);
      ConsNewestFirst(s[0], tail);
      assert Insert(x, s) == [s[0]] + tail;
    }
  }

  /** Inserting into sessions no newer than `m` a session no newer than `m`
      keeps them all no newer than `m`. */
  lemma {:induction false} InsertBounded(x: Session, s: seq<Session>, m: int)
    requires x.createdAt <= m
    requires forall i :: 0 <= i < |s| ==> s[i].createdAt <= m
    ensures forall i :: 0 <= i < |Insert(x, s)| ==> Insert(x, s)[i].createdAt <= m
  {
    if |s| > 0 && s[0].createdAt > x.createdAt {
      InsertBounded(x, s[1..], m);
      var r := [s[0]] + Insert(x, s[1..]);
      assert Insert(x, s) == r;
      forall i | 0 <= i < |r|
        ensures r[i].createdAt <= m
      {
        if i > 0 {
          assert r[i] == Insert(x, s[1..])[i - 1];
        }
      }
    }
  }

  /** A session no older than every session of a newest-first list may go in
      front of it. */
  lemma ConsNewestFirst(a: Session, t: seq<Session>)
    requires NewestFirst(t)
    requires forall i :: 0 <= i < |t| ==> t[i].createdAt <= a.createdAt
    ensures NewestFirst([a] + t)
  {
    var r := [a] + t;
    forall i, j | 0 <= i < j < |r|
      ensures r[i].createdAt >= r[j].createdAt
    {
      assert r[j] == t[j - 1];
      if i > 0 {
        assert r[i] == t[i - 1];
      }
    }
  }

  lemma {:induction false} InsertCreatedAt(x: Session, s: seq<Session>, t: int)
    ensures CreatedAt(Insert(x, s), t) == (if x.createdAt == t then [x] else []) + CreatedAt(s, t)
  {
    var xs: seq<Session> := if x.createdAt == t then [x] else [];
    if |s| > 0 && s[0].createdAt > x.createdAt {
      var tail := Insert(x, s[1..]);
      var rest := CreatedAt(s[1..], t);
      var hs: seq<Session> := if s[0].createdAt == t then [s[0]] else [];
      assert hs == [] || xs == [];
      assert CreatedAt(tail, t) == xs + rest by {
        InsertCreatedAt(x, s[1..], t);
      }
      assert CreatedAt(Insert(x, s), t) == hs + CreatedAt(tail, t) by {
        assert Insert(x, s) == [s[0]] + tail;
        CreatedAtCons(s[0], tail, t);
      }
      assert CreatedAt(s, t) == hs + rest;
      SwapEmpty(hs, xs, rest);
    } else if |s| > 0 {
      CreatedAtCons(x, s, t);
    }
  }

  /** Two prefixes, one of them empty, may be written in either order. */
  lemma SwapEmpty(a: seq<Session>, b: seq<Session>, c: seq<Session>)
    requires a == [] || b == []
    ensures a + (b + c) == b + (a + c)
  {
    if a == [] {
      assert a + (b + c) == b + c;
    } else {
      assert b + (a + c) == a + c;
    }
  }

  lemma CreatedAtCons(a: Session, s: seq<Session>, t: int)
    ensures CreatedAt([a] + s, t) == (if a.createdAt == t then [a] else []) + CreatedAt(s, t)
  {
    assert ([a] + s)[1..] == s;
  }

  /** Insertion sort by creation time, newest first; `s[0]` goes ahead of the
      sessions created at the same time, so ties keep their list order, as
      the stable `Array.prototype.sort` does. */
  function SortSessions(s: seq<Session>): (r: seq<Session>)
    ensures multiset(r) == multiset(s)
  {
    if |s| == 0 then []
    else
      assert s == [s[0]] + s[1..];
      Insert(s[0], SortSessions(s[1..]))
  }

  /** The sorted list is newest first, and sessions created at the same time
      keep their relative order. */
  lemma {:induction false} SortSessionsCorrect(s: seq<Session>)
    ensures NewestFirst(SortSessions(s))
    ensures forall t :: CreatedAt(SortSessions(s), t) == CreatedAt(s, t)
  {
    if |s| > 0 {
      SortSessionsCorrect(s[1..]);
      InsertNewestFirst(s[0], SortSessions(s[1..]));
      forall t
        ensures CreatedAt(SortSessions(s), t) == CreatedAt(s, t)
      {
        InsertCreatedAt(s[0], SortSessions(s[1..]), t);
      }
    }
  }

  lemma {:induction false} CreatedAtNonEmpty(s: seq<Session>, t: int)
    requires CreatedAt(s, t) != []
    ensures exists i :: 0 <= i < |s| && s[i].createdAt == t
  {
    if s[0].createdAt != t {
      CreatedAtNonEmpty(s[1..], t);
      var i :| 0 <= i < |s[1..]| && s[1..][i].createdAt == t;
      assert s[i + 1].createdAt == t;
    }
  }

  lemma NonEmptyHasGroup(s: seq<Session>)
    requires |s| > 0
    ensures CreatedAt(s, s[0].createdAt) != []
  {
  }

  /** A newest-first list is fixed by its per-time groups: any stable sort by
      descending creation time yields the list `SortSessions` yields. */
  lemma {:induction false} NewestFirstUnique(a: seq<Session>, b: seq<Session>)
    requires NewestFirst(a) && NewestFirst(b)
    requires forall t :: CreatedAt(a, t) == CreatedAt(b, t)
    ensures a == b
    decreases |a|
  {
    if |a| > 0 {
      NonEmptyHasGroup(a);
    }
    if |b| > 0 {
      NonEmptyHasGroup(b);
    }
    if |a| > 0 && |b| > 0 {
      var ka, kb := a[0].createdAt, b[0].createdAt;
      assert CreatedAt(b, kb) != [];
      CreatedAtNonEmpty(a, kb);
      assert CreatedAt(a, ka) != [];
      CreatedAtNonEmpty(b, ka);
      assert ka == kb;
      assert CreatedAt(a, ka) == [a[0]] + CreatedAt(a[1..], ka);
      assert CreatedAt(b, ka) == [b[0]] + CreatedAt(b[1..], ka);
      assert a[0] == b[0] by {
        assert CreatedAt(a, ka)[0] == CreatedAt(b, ka)[0];
      }
      forall t
        ensures CreatedAt(a[1..], t) == CreatedAt(b[1..], t)
      {
        if t == ka {
          assert CreatedAt(a, ka)[1..] == CreatedAt(a[1..], ka);
          assert CreatedAt(b, ka)[1..] == CreatedAt(b[1..], ka);
        } else {
          assert CreatedAt(a, t) == CreatedAt(a[1..], t);
          assert CreatedAt(b, t) == CreatedAt(b[1..], t);
        }
      }
      NewestFirstUnique(a[1..], b[1..]);
      assert a == [a[0]] + a[1..];
      assert b == [b[0]] + b[1..];
    }
  }

  /** Any newest-first list with the same per-time groups is the sorted list. */
  lemma SortSessionsDetermined(s: seq<Session>, r: seq<Session>)
    requires NewestFirst(r)
    requires forall t :: CreatedAt(r, t) == CreatedAt(s, t)
    ensures r == SortSessions(s)
  {
    SortSessionsCorrect(s);
    NewestFirstUnique(r, SortSessions(s));
  }
}
