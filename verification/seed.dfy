/** The seed script: inserts a fixed list of users, skipping every entry
    whose email is already stored, and counts what it added and skipped. */
module Seed {
  import opened Wrappers
  import opened Text
  import opened Users

  /** The four literal entries of `add_users`, in order. */
  const SeedEntries: seq<Fields> := [
    Fields("Fassih", "ul Hassny", "i221730@nu.edu.pk", 21, "Lahore"),
    Fields("Hunain", "Raza", "i221614@nu.edu.pk", 22, "Karachi"),
    Fields("Ahmed", "Umar", "i221580@nu.edu.pk", 22, "Rawalpindi"),
    Fields("Abdul", "Munim", "i227425@nu.edu.pk", 22, "Islamabad")
  ]

  /** The store and the two counters `added_count` and `skipped_count`. */
  datatype Tally = Tally(store: Store, added: nat, skipped: nat)

  /** One iteration of the seed loop for entry `e`; `c` is the database's
      answer should the entry be inserted. */
  function SeedStep(t: Tally, e: Fields, c: Commit): (r: Tally)
    ensures EmailHeld(t.store, e.email, None) ==>
      r.store == t.store && r.added == t.added && r.skipped == t.skipped + 1
    ensures !EmailHeld(t.store, e.email, None) ==>
      r.skipped == t.skipped && (r.added == t.added + 1 <==> c.Assigned? && c.id !in t.store)
    ensures !EmailHeld(t.store, e.email, None) && !(c.Assigned? && c.id !in t.store) ==> r == t
    ensures r.added == t.added + 1 ==>
      && c.Assigned? && r.store.Keys == t.store.Keys + {c.id}
      && r.store[c.id] == User(c.id, e.firstName, e.lastName, e.email, e.age, e.city, c.createdAt)
    ensures r.added == t.added && r.skipped == t.skipped ==> r.store == t.store
    ensures forall k :: k in t.store ==> k in r.store && r.store[k] == t.store[k]
  {
    if EmailHeld(t.store, e.email, None) then t.(skipped := t.skipped + 1)
    else
      match InsertRow(t.store, c, e)
      case None => t
      case Some(s') => Tally(s', t.added + 1, t.skipped)
  }

  /** The loop over `entries` from tally `t`, the i-th entry answered by `commits[i]`. */
  function Run(t: Tally, entries: seq<Fields>, commits: seq<Commit>): (r: Tally)
    requires |commits| == |entries|
    ensures t.added <= r.added && t.skipped <= r.skipped
    ensures (r.added - t.added) + (r.skipped - t.skipped) <= |entries|
    ensures forall k :: k in t.store ==> k in r.store && r.store[k] == t.store[k]
    decreases |entries|
  {
    if entries == [] then t
    else Run(SeedStep(t, entries[0], commits[0]), entries[1..], commits[1..])
  }

  /** The loop keeps ids matching keys and emails unique, and, when every
      entry meets the field constraints, the whole store invariant. */
  lemma {:induction false} RunKeepsInvariants(t: Tally, entries: seq<Fields>, commits: seq<Commit>)
    requires |commits| == |entries|
    ensures KeysMatch(t.store) && EmailsUnique(t.store) ==>
      KeysMatch(Run(t, entries, commits).store) && EmailsUnique(Run(t, entries, commits).store)
    ensures ValidStore(t.store) && (forall i :: 0 <= i < |entries| ==> FieldsOk(entries[i])) ==>
      ValidStore(Run(t, entries, commits).store)
    decreases |entries|
  {
    if entries != [] {
      var t' := SeedStep(t, entries[0], commits[0]);
      if KeysMatch(t.store) && EmailsUnique(t.store) && t'.added == t.added + 1 {
        InsertKeepsInvariants(t.store, commits[0], entries[0]);
      }
      assert forall i :: 0 <= i < |entries[1..]| ==> entries[1..][i] == entries[i + 1];
      RunKeepsInvariants(t', entries[1..], commits[1..]);
    }
  }

  /** The seed loop as a loop: the tally after the last entry is the fold. */
  method RunSeed(t: Tally, entries: seq<Fields>, commits: seq<Commit>) returns (r: Tally)
    requires |commits| == |entries|
    ensures r == Run(t, entries, commits)
  {
    r := t;
    var i := 0;
    while i < |entries|
      invariant 0 <= i <= |entries|
      invariant Run(r, entries[i..], commits[i..]) == Run(t, entries, commits)
    {
      assert entries[i..][1..] == entries[i + 1..];
      assert commits[i..][1..] == commits[i + 1..];
      r := SeedStep(r, entries[i], commits[i]);
      i := i + 1;
    }
  }

  /** `add_users()`: the seed loop over the literal entries, starting with
      both counters at zero. */
  method AddUsers(store: Store, commits: seq<Commit>) returns (r: Tally)
    requires |commits| == |SeedEntries|
    ensures r == Run(Tally(store, 0, 0), SeedEntries, commits)
    ensures r.added + r.skipped <= |SeedEntries|
    ensures forall k :: k in store ==> k in r.store && r.store[k] == store[k]
  {
    r := RunSeed(Tally(store, 0, 0), SeedEntries, commits);
  }

  // ---------------------------------------------------------------------------
  // Properties of a run
  // ---------------------------------------------------------------------------

  /** No insert can fail: every answer assigns a key, none of them is taken,
      and no two are the same. */
  ghost predicate FreshCommits(store: Store, commits: seq<Commit>) {
    && (forall i :: 0 <= i < |commits| ==> commits[i].Assigned? && commits[i].id !in store)
    && (forall i, j :: 0 <= i < j < |commits| ==>
          commits[i].Assigned? && commits[j].Assigned? && commits[i].id != commits[j].id)
  }

  /** A run in which no insert fails processes every entry as either added
      or skipped, and leaves every entry's email stored. */
  lemma {:induction false} FailureFreeRun(t: Tally, entries: seq<Fields>, commits: seq<Commit>)
    requires |commits| == |entries| && FreshCommits(t.store, commits)
    ensures var r := Run(t, entries, commits);
      && (r.added - t.added) + (r.skipped - t.skipped) == |entries|
      && forall i :: 0 <= i < |entries| ==> EmailHeld(r.store, entries[i].email, None)
    decreases |entries|
  {
    if entries != [] {
      var t' := SeedStep(t, entries[0], commits[0]);
      var rest, cs := entries[1..], commits[1..];
      FreshCommitsStep(t, entries[0], commits);
      FailureFreeRun(t', rest, cs);
      HeldAfterRun(t', entries, commits);
    }
  }

  /** After a failure-free step the remaining answers are still fresh. */
  lemma FreshCommitsStep(t: Tally, e: Fields, commits: seq<Commit>)
    requires commits != [] && FreshCommits(t.store, commits)
    ensures EmailHeld(SeedStep(t, e, commits[0]).store, e.email, None)
    ensures FreshCommits(SeedStep(t, e, commits[0]).store, commits[1..])
  {
  }

  /** The emails the first step stored, and those the rest of the run
      stored, are all stored at the end. */
  lemma HeldAfterRun(t': Tally, entries: seq<Fields>, commits: seq<Commit>)
    requires |commits| == |entries| && entries != []
    requires EmailHeld(t'.store, entries[0].email, None)
    requires forall i :: 0 <= i < |entries[1..]| ==>
      EmailHeld(Run(t', entries[1..], commits[1..]).store, entries[1..][i].email, None)
    ensures forall i :: 0 <= i < |entries| ==>
      EmailHeld(Run(t', entries[1..], commits[1..]).store, entries[i].email, None)
  {
  }

  /** A run over entries whose emails are all stored already skips every
      entry and changes nothing else. */
  lemma {:induction false} RunOverStoredEmails(t: Tally, entries: seq<Fields>, commits: seq<Commit>)
    requires |commits| == |entries|
    requires forall i :: 0 <= i < |entries| ==> EmailHeld(t.store, entries[i].email, None)
    ensures Run(t, entries, commits) == t.(skipped := t.skipped + |entries|)
    decreases |entries|
  {
    if entries != [] {
      var t' := SeedStep(t, entries[0], commits[0]);
      assert t' == t.(skipped := t.skipped + 1);
      forall i | 0 <= i < |entries[1..]|
        ensures EmailHeld(t'.store, entries[1..][i].email, None)
      {
        assert entries[1..][i] == entries[i + 1];
      }
      RunOverStoredEmails(t', entries[1..], commits[1..]);
    }
  }

  /** Running the seed script twice: when the first run has no failed insert
      it adds or skips every entry, and the second run then adds nothing,
      skips every entry and leaves the store as the first run left it. */
  lemma SeedTwice(store: Store, entries: seq<Fields>, first: seq<Commit>, second: seq<Commit>)
    requires |first| == |entries| && |second| == |entries|
    requires FreshCommits(store, first)
    ensures var r1 := Run(Tally(store, 0, 0), entries, first);
      && r1.added + r1.skipped == |entries|
      && Run(Tally(r1.store, 0, 0), entries, second) == Tally(r1.store, 0, |entries|)
  {
    var r1 := Run(Tally(store, 0, 0), entries, first);
    FailureFreeRun(Tally(store, 0, 0), entries, first);
    RunOverStoredEmails(Tally(r1.store, 0, 0), entries, second);
  }

  /** The seed literals satisfy the field constraints and their four emails
      are pairwise distinct. */
  lemma SeedEntriesDistinct()
    ensures forall i :: 0 <= i < |SeedEntries| ==> FieldsOk(SeedEntries[i])
    ensures forall i, j :: 0 <= i < j < |SeedEntries| ==> SeedEntries[i].email != SeedEntries[j].email
  {
  }

  /** Each seed literal, submitted as a form with its age written out, passes
      the application's validation unchanged against any store that does not
      hold its email. */
  lemma SeedEntriesValidate(store: Store, i: int)
    requires 0 <= i < |SeedEntries| && !EmailHeld(store, SeedEntries[i].email, None)
    ensures var e := SeedEntries[i];
      Validate(store, FormOf(e.firstName, e.lastName, e.email, IntToString(e.age), e.city), None) == Success(e)
  {
    SeedEntriesDistinct();
    FieldsValidate(store, SeedEntries[i], None);
  }
}
