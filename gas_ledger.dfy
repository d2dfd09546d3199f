/** The gas usage history and its leaderboard view: `gasHistory` only ever
    grows by one record at its end or is cleared, and the leaderboard shows a
    copy sorted with `(a, b) => a.gas - b.gas`. */
module GasLedger {

  /** One confirmed transaction: `{ name, gas, hash }`. */
  datatype GasRecord = GasRecord(name: string, gas: nat, hash: string)

  predicate SortedByGas(s: seq<GasRecord>) {
    forall i, j :: 0 <= i < j < |s| ==> s[i].gas <= s[j].gas
  }

  /** Puts `r` before the first record whose gas is at least its own. */
  function Insert(r: GasRecord, s: seq<GasRecord>): (t: seq<GasRecord>)
    ensures |t| == |s| + 1
    ensures t[0] == r || (s != [] && t[0] == s[0])
    ensures SortedByGas(s) ==> SortedByGas(t)
    decreases |s|
  {
    if s == [] || r.gas <= s[0].gas then [r] + s
    else
      var rest := Insert(r, s[1..]);
      assert SortedByGas(s) ==> s[0].gas <= rest[0].gas;
      [s[0]] + rest
  }

  lemma {:induction false} InsertPermutes(r: GasRecord, s: seq<GasRecord>)
    ensures multiset(Insert(r, s)) == multiset(s) + multiset{r}
    decreases |s|
  {
    if s != [] && r.gas > s[0].gas {
      InsertPermutes(r, s[1..]);
      assert s == [s[0]] + s[1..];
    }
  }

  /** `[...gasHistory].sort((a, b) => a.gas - b.gas)`: a stable sort by gas,
      ascending, of a copy. */
  function SortByGas(h: seq<GasRecord>): (t: seq<GasRecord>)
    ensures SortedByGas(t)
    ensures multiset(t) == multiset(h)
    decreases |h|
  {
    if h == [] then [] else
      assert h == [h[0]] + h[1..];
      InsertPermutes(h[0], SortByGas(h[1..]));
      Insert(h[0], SortByGas(h[1..]))
  }

  /** The records with gas `g`, in order. */
  function WithGas(s: seq<GasRecord>, g: nat): seq<GasRecord>
    decreases |s|
  {
    if s == [] then []
    else (if s[0].gas == g then [s[0]] else []) + WithGas(s[1..], g)
  }

  lemma {:induction false} InsertWithGas(r: GasRecord, s: seq<GasRecord>, g: nat)
    ensures WithGas(Insert(r, s), g) == (if r.gas == g then [r] else []) + WithGas(s, g)
    decreases |s|
  {
    if s == [] || r.gas <= s[0].gas {
      assert ([r] + s)[1..] == s;
    } else {
      InsertWithGas(r, s[1..], g);
      var t := Insert(r, s);
      assert t[0] == s[0] && t[1..] == Insert(r, s[1..]);
    }
  }

  /** The sort is stable: records of equal gas keep their ledger order. */
  lemma {:induction false} SortByGasStable(h: seq<GasRecord>, g: nat)
    ensures WithGas(SortByGas(h), g) == WithGas(h, g)
    decreases |h|
  {
    if h != [] {
      SortByGasStable(h[1..], g);
      InsertWithGas(h[0], SortByGas(h[1..]), g);
    }
  }

  lemma SortByGasStableAll(h: seq<GasRecord>)
    ensures forall g :: WithGas(SortByGas(h), g) == WithGas(h, g)
  {
    forall g {
      SortByGasStable(h, g);
    }
  }

  /** The leaderboard table of a history: sorted by gas ascending, holding
      exactly the history's records, records of equal gas in the order they
      were confirmed. The history itself is not reordered. */
  function LeaderboardOf(h: seq<GasRecord>): (board: seq<GasRecord>)
    ensures SortedByGas(board)
    ensures multiset(board) == multiset(h)
    ensures forall g :: WithGas(board, g) == WithGas(h, g)
  {
    SortByGasStableAll(h);
    SortByGas(h)
  }

  /** The number of leading records whose gas is at most `gas`: in a sorted
      view, the position just after every record of no greater gas. */
  function Place(gas: nat, s: seq<GasRecord>): (k: nat)
    ensures k <= |s|
    ensures forall i :: 0 <= i < k ==> s[i].gas <= gas
    ensures k < |s| ==> s[k].gas > gas
    decreases |s|
  {
    if s == [] || gas < s[0].gas then 0 else 1 + Place(gas, s[1..])
  }

  /** Puts `r` after every leading record of no greater gas. */
  function InsertAfter(r: GasRecord, s: seq<GasRecord>): seq<GasRecord>
    decreases |s|
  {
    if s == [] || r.gas < s[0].gas then [r] + s else [s[0]] + InsertAfter(r, s[1..])
  }

  lemma {:induction false} InsertAfterShape(r: GasRecord, s: seq<GasRecord>)
    ensures InsertAfter(r, s) == s[..Place(r.gas, s)] + [r] + s[Place(r.gas, s)..]
    decreases |s|
  {
    if s != [] && r.gas >= s[0].gas {
      InsertAfterShape(r, s[1..]);
      var k := Place(r.gas, s[1..]);
      assert s[..k + 1] == [s[0]] + s[1..][..k];
      assert s[k + 1..] == s[1..][k..];
    }
  }

  /** Inserting an older record in front of the sort and a newer one behind
      records of equal gas can be done in either order. */
  lemma {:induction false} InsertCommutes(a: GasRecord, r: GasRecord, s: seq<GasRecord>)
    ensures Insert(a, InsertAfter(r, s)) == InsertAfter(r, Insert(a, s))
    decreases |s|
  {
    if s != [] && r.gas >= s[0].gas && a.gas > s[0].gas {
      InsertCommutes(a, r, s[1..]);
    }
  }

  /** Sorting a history with one more record at its end places that record
      behind every record of the old leaderboard: it lands after all the
      records of no greater gas, before those of greater gas, and the rest of
      the leaderboard is unchanged. */
  lemma {:induction false} AppendedLands(h: seq<GasRecord>, r: GasRecord)
    ensures SortByGas(h + [r]) == InsertAfter(r, SortByGas(h))
    decreases |h|
  {
    if h != [] {
      assert (h + [r])[0] == h[0];
      assert (h + [r])[1..] == h[1..] + [r];
      AppendedLands(h[1..], r);
      InsertCommutes(h[0], r, SortByGas(h[1..]));
    }
  }

  /** The leaderboard after one more confirmed transaction is the old one
      with the new record inserted after every record of no greater gas and
      before every record of greater gas. */
  lemma LeaderboardAfterAppend(h: seq<GasRecord>, r: GasRecord)
    ensures var b := SortByGas(h);
            var k := Place(r.gas, b);
            SortByGas(h + [r]) == b[..k] + [r] + b[k..] &&
            (forall i :: 0 <= i < k ==> b[i].gas <= r.gas) &&
            (forall i :: k <= i < |b| ==> b[i].gas > r.gas)
    ensures |SortByGas(h + [r])| == |h| + 1
  {
    AppendedLands(h, r);
    InsertAfterShape(r, SortByGas(h));
    assert |SortByGas(h)| == |multiset(SortByGas(h))| == |multiset(h)| == |h|;
  }
}
