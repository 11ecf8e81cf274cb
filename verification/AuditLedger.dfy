/**
 * The hash-chained audit ledger (src/common/utils/audit-logger.util.js). The entry
 * hash (SHA-256 of the entry's JSON text) is a parameter; what the chain promises
 * rests on it being injective and never producing the 64 zeros of the genesis.
 */
module AuditLedger {
  import opened Prelude

  /** The fields hashEntry covers. */
  datatype Payload = Payload(
    index: nat, previousHash: string, timestamp: int, employeeId: string, mutation: string, reason: string)

  datatype Entry = Entry(payload: Payload, hash: string)

  type Hash = Payload -> string

  const GENESIS := "0000000000000000000000000000000000000000000000000000000000000000"

  ghost predicate Injective(h: Hash) {
    forall p, q :: h(p) == h(q) ==> p == q
  }

  ghost predicate NeverGenesis(h: Hash) {
    forall p :: h(p) != GENESIS
  }

  function LastHash(chain: seq<Entry>): string {
    if chain == [] then GENESIS else chain[|chain| - 1].hash
  }

  /** The two checks verifyIntegrity makes on entry i. */
  predicate Fits(h: Hash, chain: seq<Entry>, i: nat)
    requires i < |chain|
  {
    chain[i].payload.previousHash == LastHash(chain[..i]) && chain[i].hash == h(chain[i].payload)
  }

  ghost predicate Verifies(h: Hash, chain: seq<Entry>) {
    forall i | 0 <= i < |chain| :: Fits(h, chain, i)
  }

  /** What append is given, with the clock. An empty reason is replaced. */
  datatype Change = Change(employeeId: string, mutation: string, reason: string, now: int)

  function NewEntry(h: Hash, chain: seq<Entry>, c: Change): Entry {
    var p := Payload(|chain|, LastHash(chain), c.now, c.employeeId, c.mutation,
                     if c.reason == "" then "UNSPECIFIED" else c.reason);
    Entry(p, h(p))
  }

  function Append(h: Hash, chain: seq<Entry>, c: Change): seq<Entry> {
    if c.employeeId == "" then chain else chain + [NewEntry(h, chain, c)]
  }

  function AppendAll(h: Hash, changes: seq<Change>): seq<Entry> {
    if changes == [] then []
    else Append(h, AppendAll(h, changes[..|changes| - 1]), changes[|changes| - 1])
  }

  lemma PrefixFits(h: Hash, chain: seq<Entry>, n: nat, i: nat)
    requires i < n <= |chain|
    ensures Fits(h, chain[..n], i) <==> Fits(h, chain, i)
  {
    assert chain[..n][..i] == chain[..i];
  }

  lemma AppendVerifies(h: Hash, chain: seq<Entry>, c: Change)
    requires Verifies(h, chain)
    ensures Verifies(h, Append(h, chain, c))
  {
    var chain' := Append(h, chain, c);
    forall i | 0 <= i < |chain'| ensures Fits(h, chain', i) {
      if i < |chain| {
        assert chain'[..|chain|] == chain;
        PrefixFits(h, chain', |chain|, i);
        assert Fits(h, chain, i);
      } else {
        assert chain'[..i] == chain;
      }
    }
  }

  /** A ledger that was only ever appended to verifies, whatever the hash. */
  lemma {:induction false} AppendOnlyRunsVerify(h: Hash, changes: seq<Change>)
    ensures Verifies(h, AppendAll(h, changes))
  {
    if changes != [] {
      AppendOnlyRunsVerify(h, changes[..|changes| - 1]);
      AppendVerifies(h, AppendAll(h, changes[..|changes| - 1]), changes[|changes| - 1]);
    }
  }

  /** The changes that name an employee. */
  function AcceptedChanges(changes: seq<Change>): seq<Change> {
    if changes == [] then []
    else
      AcceptedChanges(changes[..|changes| - 1])
      + (if changes[|changes| - 1].employeeId == "" then [] else [changes[|changes| - 1]])
  }

  /** The entry tells what was to be recorded. */
  predicate Tells(e: Entry, c: Change) {
    && e.payload.employeeId == c.employeeId && e.payload.mutation == c.mutation && e.payload.timestamp == c.now
    && e.payload.reason == (if c.reason == "" then "UNSPECIFIED" else c.reason)
  }

  /** The ledger tells every change that names an employee, once and in order, numbered from 0. */
  lemma {:induction false} LedgerTellsTheChanges(h: Hash, changes: seq<Change>)
    ensures |AppendAll(h, changes)| == |AcceptedChanges(changes)|
    ensures forall i | 0 <= i < |AppendAll(h, changes)| ::
      Tells(AppendAll(h, changes)[i], AcceptedChanges(changes)[i]) && AppendAll(h, changes)[i].payload.index == i
  {
    if changes != [] { LedgerTellsTheChanges(h, changes[..|changes| - 1]); }
  }

  lemma PrefixVerifies(h: Hash, chain: seq<Entry>, n: nat)
    requires Verifies(h, chain) && n <= |chain|
    ensures Verifies(h, chain[..n])
  {
    forall i | 0 <= i < n ensures Fits(h, chain[..n], i) {
      PrefixFits(h, chain, n, i);
      assert Fits(h, chain, i);
    }
  }

  /** A verified chain is determined by its last hash: its length and every field of every entry. */
  lemma {:induction false} LastHashDeterminesTheChain(h: Hash, a: seq<Entry>, b: seq<Entry>)
    requires Injective(h) && NeverGenesis(h)
    requires Verifies(h, a) && Verifies(h, b) && LastHash(a) == LastHash(b)
    ensures a == b
    decreases |a|
  {
    if a != [] { assert Fits(h, a, |a| - 1); }
    if b != [] { assert Fits(h, b, |b| - 1); }
    if a != [] && b != [] {
      var m, n := |a| - 1, |b| - 1;
      assert a[m].payload == b[n].payload;
      PrefixVerifies(h, a, m);
      PrefixVerifies(h, b, n);
      LastHashDeterminesTheChain(h, a[..m], b[..n]);
      assert a == a[..m] + [a[m]] && b == b[..n] + [b[n]];
    }
  }

  /** Replacing any entry of a verified chain by a different one makes verification fail or changes the last hash. */
  lemma TamperingShows(h: Hash, chain: seq<Entry>, i: nat, forged: Entry)
    requires Injective(h) && NeverGenesis(h) && Verifies(h, chain)
    requires i < |chain| && forged != chain[i]
    ensures !Verifies(h, chain[i := forged]) || LastHash(chain[i := forged]) != LastHash(chain)
    ensures i < |chain| - 1 ==> !Verifies(h, chain[i := forged])
  {
    var forgery := chain[i := forged];
    assert forgery[i] != chain[i];
    if Verifies(h, forgery) && LastHash(forgery) == LastHash(chain) {
      LastHashDeterminesTheChain(h, forgery, chain);
    }
  }

  /**
   * The forgeries that verify: exactly those of the last entry that keep its link and
   * carry the hash of their own fields. They show only in the last hash.
   */
  lemma ForgeryVerifiesExactlyWhenLastAndRehashed(h: Hash, chain: seq<Entry>, i: nat, forged: Entry)
    requires Injective(h) && NeverGenesis(h) && Verifies(h, chain)
    requires i < |chain| && forged != chain[i]
    ensures Verifies(h, chain[i := forged])
       <==> i == |chain| - 1 && forged.hash == h(forged.payload)
            && forged.payload.previousHash == chain[i].payload.previousHash
    ensures Verifies(h, chain[i := forged]) ==> LastHash(chain[i := forged]) != LastHash(chain)
  {
    TamperingShows(h, chain, i, forged);
    var forgery := chain[i := forged];
    assert forgery[..i] == chain[..i];
    assert Fits(h, chain, i);
    if Verifies(h, forgery) {
      assert Fits(h, forgery, i);
    } else if i == |chain| - 1 && forged.hash == h(forged.payload)
              && forged.payload.previousHash == chain[i].payload.previousHash {
      forall j | 0 <= j < |forgery| ensures Fits(h, forgery, j) {
        if j < i {
          assert forgery[..j] == chain[..j];
          assert Fits(h, chain, j);
        }
      }
    }
  }

  /**
   * Cutting entries off the end goes unnoticed by verification and, unless nothing is cut,
   * only shows in the last hash.
   */
  lemma TruncationShowsOnlyInTheLastHash(h: Hash, chain: seq<Entry>, n: nat)
    requires Injective(h) && NeverGenesis(h) && Verifies(h, chain) && n <= |chain|
    ensures Verifies(h, chain[..n])
    ensures LastHash(chain[..n]) == LastHash(chain) <==> n == |chain|
  {
    PrefixVerifies(h, chain, n);
    if LastHash(chain[..n]) == LastHash(chain) {
      LastHashDeterminesTheChain(h, chain[..n], chain);
    }
    if n == |chain| { assert chain[..n] == chain; }
  }

  class Ledger {
    const hashEntry: Hash
    var chain: seq<Entry>

    constructor (hashEntry: Hash)
      ensures this.hashEntry == hashEntry && chain == []
    {
      this.hashEntry := hashEntry;
      chain := [];
    }

    /** Throws a TypeError, here None, for an empty employee id. */
    method AppendEntry(c: Change) returns (entry: Option<Entry>)
      modifies this
      ensures chain == Append(hashEntry, old(chain), c)
      ensures entry == if c.employeeId == "" then None else Some(NewEntry(hashEntry, old(chain), c))
      // in fields
      ensures entry.None? <==> c.employeeId == ""
      ensures entry.None? ==> chain == old(chain)
      ensures entry.Some? ==>
        var p := entry.value.payload;
        && chain == old(chain) + [entry.value] && entry.value.hash == hashEntry(p) && p.index == |old(chain)|
        && p.previousHash == (if old(chain) == [] then GENESIS else old(chain)[|old(chain)| - 1].hash)
        && p.employeeId == c.employeeId && p.mutation == c.mutation && p.timestamp == c.now
        && p.reason == (if c.reason == "" then "UNSPECIFIED" else c.reason)
    {
      if c.employeeId == "" { return None; }
      var previousHash := if |chain| > 0 then chain[|chain| - 1].hash else GENESIS;
      var payload := Payload(|chain|, previousHash, c.now, c.employeeId, c.mutation,
                             if c.reason == "" then "UNSPECIFIED" else c.reason);
      var added := Entry(payload, hashEntry(payload));
      chain := chain + [added];
      return Some(added);
    }

    method VerifyIntegrity() returns (ok: bool)
      ensures ok <==> Verifies(hashEntry, chain)
    {
      var i := 0;
      while i < |chain|
        invariant 0 <= i <= |chain|
        invariant forall j | 0 <= j < i :: Fits(hashEntry, chain, j)
      {
        var expectedPrev := if i == 0 then GENESIS else chain[i - 1].hash;
        assert expectedPrev == LastHash(chain[..i]);
        if chain[i].payload.previousHash != expectedPrev {
          assert !Fits(hashEntry, chain, i);
          return false;
        }
        if chain[i].hash != hashEntry(chain[i].payload) {
          assert !Fits(hashEntry, chain, i);
          return false;
        }
        i := i + 1;
      }
      return true;
    }
  }
}
