/**
 Saving and restoring the hashrate history. The stored document maps each
 algorithm key to the plain list of its samples; restoring rebuilds each
 series as a bounded deque, which keeps only the last `Capacity` entries.
 File and JSON I/O are not modelled: what the read produced is an input.
 */
module Persistence {
  import opened HashrateHistory

  /** The stored document: an object from algorithm key to a list of samples.
      Other iterable values (a string, a nested object) are not modelled. */
  type Document = map<string, seq<Sample>>

  /** What opening and parsing the history file produced. */
  datatype Stored =
    | Unreadable           // opening or reading raised an I/O error (e.g. no file yet)
    | NotJson              // the content did not parse as JSON (a ValueError)
    | WrongShape           // valid JSON, but not an object, or an object with a value
                           // that cannot be iterated (a number, a boolean or null)
    | Parsed(doc: Document)

  /** The result of a restore: a history, or an exception that escapes the
      restore because it is neither an I/O error nor a ValueError. */
  datatype Restored = Loaded(history: History) | Raised

  /** Converts every bounded series to a plain list: every key is written,
      and its list holds the deque's samples, oldest first. */
  function Save(h: History): (d: Document)
    ensures d.Keys == h.Keys
    ensures forall k :: k in d ==> |d[k]| == |h[k]| && forall i :: 0 <= i < |d[k]| ==> d[k][i] == h[k][i]
  {
    map k | k in h :: h[k]
  }

  /** Restores a history. A missing or unreadable file and content that is not
      JSON both yield the empty history; JSON that is not an object, or whose
      values cannot be iterated, raises. For a
      parsed document the keys are kept and each series is the last (at most
      `Capacity`) entries of the stored list, in order. */
  function Load(stored: Stored): (r: Restored)
    ensures (stored.Unreadable? || stored.NotJson?) ==> r == Loaded(map[])
    ensures stored.WrongShape? ==> r.Raised?
    ensures stored.Parsed? ==>
              && r.Loaded?
              && r.history.Keys == stored.doc.Keys
              && forall k :: k in r.history ==>
                   && |r.history[k]| == Min(|stored.doc[k]|, Capacity)
                   && IsSuffix(r.history[k], stored.doc[k])
  {
    match stored
    case Unreadable => Loaded(map[])
    case NotJson => Loaded(map[])
    case WrongShape => Raised
    case Parsed(doc) => Loaded(map k | k in doc :: KeepLast(doc[k], Capacity))
  }

  /** Every series of `h` fits in a bounded deque. */
  predicate WithinCapacity(h: History)
  {
    forall k :: k in h ==> |h[k]| <= Capacity
  }

  /** Restoring what was saved gives back the same history whenever every
      series is within capacity (which every in-memory series is). */
  lemma LoadSaveRoundTrip(h: History)
    requires WithinCapacity(h)
    ensures Load(Parsed(Save(h))) == Loaded(h)
  {
    var r := Load(Parsed(Save(h))).history;
    forall k | k in h
      ensures r[k] == h[k]
    {
      assert KeepLast(h[k], Capacity) == h[k];
    }
  }

  /** A parsed document restores unchanged exactly when no stored list is
      longer than the capacity; otherwise some list is truncated. */
  lemma LoadExactIff(doc: Document)
    ensures Load(Parsed(doc)) == Loaded(doc) <==> WithinCapacity(doc)
  {
    if WithinCapacity(doc) {
      LoadSaveRoundTrip(doc);
      assert Save(doc) == doc;
    } else {
      var k :| k in doc && |doc[k]| > Capacity;
      assert |Load(Parsed(doc)).history[k]| == Capacity;
    }
  }

  /** Restoring is a normal form: saving a restored history and restoring
      again changes nothing. */
  lemma LoadIdempotent(doc: Document)
    ensures var h := Load(Parsed(doc)).history;
            Load(Parsed(Save(h))) == Loaded(h)
  {
    var h := Load(Parsed(doc)).history;
    assert WithinCapacity(h);
    LoadSaveRoundTrip(h);
  }

  /** A document whose lists are chronological and not later than `now`
      restores to a well-formed history. */
  lemma LoadWellFormed(doc: Document, now: int)
    requires forall k :: k in doc ==> Chronological(doc[k]) && NotAfter(doc[k], now)
    ensures WellFormed(Load(Parsed(doc)).history, now)
  {
    var h := Load(Parsed(doc)).history;
    forall k | k in h
      ensures |h[k]| <= Capacity && Chronological(h[k]) && NotAfter(h[k], now)
    {
      ChronologicalSuffix(h[k], doc[k], now);
    }
  }

  // The history file has one fixed name, so every configured wallet saves
  // to, and restores from, the same file.

  /** The file after each wallet of one poll cycle saved its history, in
      configuration order: each save overwrites the previous content. */
  function SaveEachWallet(histories: seq<History>, file: Stored): (r: Stored)
    ensures |histories| > 0 ==> r == Parsed(Save(histories[|histories| - 1]))
    ensures |histories| == 0 ==> r == file
  {
    if |histories| == 0 then file
    else SaveEachWallet(histories[1..], Parsed(Save(histories[0])))
  }

  /** At start-up every wallet restores from the same file. */
  function RestoreEachWallet(wallets: seq<string>, file: Stored): (r: map<string, Restored>)
    ensures r.Keys == set w | w in wallets
    ensures forall w :: w in r ==> r[w] == Load(file)
  {
    map w | w in wallets :: Load(file)
  }

  /** As written: with two wallets whose histories differ, a restart after
      one poll cycle gives the first wallet the second wallet's history. */
  lemma SharedFileMixesWallets(t: int)
    ensures var a := map["x" := [Sample(t, 1.0)]];
            var b := map["y" := [Sample(t, 2.0)]];
            var restored := RestoreEachWallet(["A", "B"], SaveEachWallet([a, b], Unreadable));
            && restored["A"] == Loaded(b)
            && restored["A"] != Loaded(a)
  {
    var a := map["x" := [Sample(t, 1.0)]];
    var b := map["y" := [Sample(t, 2.0)]];
    LoadSaveRoundTrip(b);
    assert "x" !in b;
  }

  /** Corrected: one stored file per wallet. */
  type Disk = map<string, Stored>

  function SaveWallet(disk: Disk, wallet: string, h: History): Disk
  {
    disk[wallet := Parsed(Save(h))]
  }

  /** A wallet with no file of its own starts from the empty history. */
  function RestoreWallet(disk: Disk, wallet: string): Restored
  {
    if wallet in disk then Load(disk[wallet]) else Loaded(map[])
  }

  /** With per-wallet files a wallet restores exactly the history it saved,
      and saving one wallet leaves what every other wallet restores unchanged. */
  lemma PerWalletRoundTrip(disk: Disk, wallet: string, h: History, other: string)
    requires WithinCapacity(h)
    ensures RestoreWallet(SaveWallet(disk, wallet, h), wallet) == Loaded(h)
    ensures other != wallet ==>
              RestoreWallet(SaveWallet(disk, wallet, h), other) == RestoreWallet(disk, other)
  {
    LoadSaveRoundTrip(h);
  }
}
