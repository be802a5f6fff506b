/** What a read sees: the specification of the store is the plain
    multi-version map given by a set of entries. */
module View {
  import opened Keys

  predicate Visible(e: Entry, user: UserKey, s: SequenceNumber) {
    e.key.user == user && e.key.sequence <= s
  }

  /** `e` is the newest version of `user` visible at `s`. */
  ghost predicate IsNewest(es: set<Entry>, user: UserKey, s: SequenceNumber, e: Entry) {
    && e in es && Visible(e, user, s)
    && forall x <- es | Visible(x, user, s) :: x.key.sequence <= e.key.sequence
  }

  ghost predicate Unseen(es: set<Entry>, user: UserKey, s: SequenceNumber) {
    forall x <- es :: !Visible(x, user, s)
  }

  /** No two versions of a user key have the same sequence number. */
  ghost predicate OneVersion(es: set<Entry>) {
    forall a <- es, b <- es | a.key.user == b.key.user && a.key.sequence == b.key.sequence :: a == b
  }

  function Outcome(e: Entry): Option<Bytes> {
    if e.key.kind.Value? then Some(e.value) else None
  }

  /** The value of `user` at `s`: that of the newest visible version; none if
      that version is a deletion or there is no version. */
  ghost function Read(es: set<Entry>, user: UserKey, s: SequenceNumber): Option<Bytes> {
    if e :| IsNewest(es, user, s, e) && e.key.kind.Value? then Some(e.value) else None
  }

  lemma ReadNewest(es: set<Entry>, user: UserKey, s: SequenceNumber, e: Entry)
    requires OneVersion(es) && IsNewest(es, user, s, e)
    ensures Read(es, user, s) == Outcome(e)
  {
    assert forall x | IsNewest(es, user, s, x) :: x == e;
  }

  lemma ReadUnseen(es: set<Entry>, user: UserKey, s: SequenceNumber)
    requires Unseen(es, user, s)
    ensures Read(es, user, s) == None
  {
  }

  lemma {:induction false} NewestExists(es: set<Entry>, user: UserKey, s: SequenceNumber)
    ensures Unseen(es, user, s) || exists e :: IsNewest(es, user, s, e)
  {
    if x :| x in es && Visible(x, user, s) {
      var rest := es - {x};
      NewestExists(rest, user, s);
      if Unseen(rest, user, s) {
        assert IsNewest(es, user, s, x);
      } else {
        var e :| IsNewest(rest, user, s, e);
        assert IsNewest(es, user, s, if e.key.sequence < x.key.sequence then x else e);
      }
    }
  }

  /** Removing entries keeps a read unless it removes the newest visible
      version; a newest deletion may go if it leaves nothing visible. */
  lemma ReadOfSubset(es: set<Entry>, part: set<Entry>, user: UserKey, s: SequenceNumber)
    requires part <= es && OneVersion(es)
    requires forall e | IsNewest(es, user, s, e) ::
      e in part || (e.key.kind.Deletion? && Unseen(part, user, s))
    ensures Read(part, user, s) == Read(es, user, s)
  {
    NewestExists(es, user, s);
    if !Unseen(es, user, s) {
      var e :| IsNewest(es, user, s, e);
      ReadNewest(es, user, s, e);
      if e in part {
        assert IsNewest(part, user, s, e);
        ReadNewest(part, user, s, e);
      }
    }
  }

  /** Newer entries hide older ones; invisible ones do not matter. */
  lemma ReadOfUnion(newer: set<Entry>, older: set<Entry>, user: UserKey, s: SequenceNumber)
    requires OneVersion(newer + older)
    requires Unseen(newer, user, s) ||
      forall a <- newer, b <- older | a.key.user == user && b.key.user == user :: a.key.sequence > b.key.sequence
    ensures Read(newer + older, user, s) == if Unseen(newer, user, s) then Read(older, user, s) else Read(newer, user, s)
  {
    NewestExists(newer, user, s);
    NewestExists(older, user, s);
    if e :| IsNewest(newer, user, s, e) {
      assert IsNewest(newer + older, user, s, e);
      ReadNewest(newer + older, user, s, e);
      ReadNewest(newer, user, s, e);
    } else if e :| IsNewest(older, user, s, e) {
      assert IsNewest(newer + older, user, s, e);
      ReadNewest(newer + older, user, s, e);
      ReadNewest(older, user, s, e);
    }
  }
}
