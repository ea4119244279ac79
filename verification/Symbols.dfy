/** The YAPL-1 symbol table: what it means to intern a key. */
module Symbols {
  import opened Words

  const SYMTAB_MAX := 4096
  const SYMLEN_MAX := 16
  const STRTAB_MAX := 8192

  const ERR_BASE: Word := 0xC000
  const ERR_SYM_NODEF: Word := 0xC602
  const ERR_INT_NOSTR: Word := 0xC701
  const ERR_INT_NOSYM: Word := 0xC702
  const ERR_INT_TOOBIG: Word := 0xC703
  const ERR_INT_BUG: Word := 0xC704

  /** What a symbol table entry stands for: a number, or a string. */
  datatype Key = Num(v: Word) | Str(s: seq<Byte>)

  /** Strings longer than this are never found, only entered. */
  predicate TooLong(k: Key) {
    k.Str? && |k.s| > SYMLEN_MAX
  }

  /** Position of the first entry for k. */
  function Find(keys: seq<Key>, k: Key): (i: nat)
    ensures i <= |keys| && (forall j :: 0 <= j < i ==> keys[j] != k)
    ensures i < |keys| ==> keys[i] == k
  {
    if keys == [] || keys[0] == k then 0 else 1 + Find(keys[1..], k)
  }

  predicate Known(keys: seq<Key>, k: Key) {
    !TooLong(k) && k in keys
  }

  /** The table after entering k, and the index or error handed back. */
  function Entered(keys: seq<Key>, k: Key): seq<Key> {
    if Known(keys, k) || |keys| >= SYMTAB_MAX then keys else keys + [k]
  }

  function IndexFor(keys: seq<Key>, k: Key): (r: Word)
    requires |keys| <= SYMTAB_MAX
    ensures Known(keys, k) ==> r < |keys| && keys[r] == k
  {
    if Known(keys, k) then Find(keys, k)
    else if |keys| >= SYMTAB_MAX then ERR_INT_NOSYM
    else |keys|
  }

  // ---- Interning ----

  predicate Interned(keys: seq<Key>) {
    forall i, j :: 0 <= i < j < |keys| ==> keys[i] != keys[j]
  }

  /** Entering a key keeps all entries distinct, except precisely when the key is a
      string too long to be looked up that is there already. */
  lemma EnteredInterned(keys: seq<Key>, k: Key)
    requires Interned(keys)
    ensures Interned(Entered(keys, k)) <==> !(TooLong(k) && k in keys && |keys| < SYMTAB_MAX)
  {
    var after := Entered(keys, k);
    if TooLong(k) && k in keys && |keys| < SYMTAB_MAX {
      var i := Find(keys, k);
      assert after[i] == after[|keys|];
    }
  }

  /** A key already known, and short enough to be found, changes nothing; a full table turns
      any other away; and otherwise it gets the next index, at the end. */
  lemma EnteredExactly(keys: seq<Key>, k: Key)
    requires |keys| <= SYMTAB_MAX
    ensures var r, after := IndexFor(keys, k), Entered(keys, k);
      if k in keys && (k.Num? || |k.s| <= 16) then after == keys && r < |keys| && keys[r] == k && k !in keys[..r]
      else if |keys| == SYMTAB_MAX then after == keys && r == 0xC702
      else after == keys + [k] && r == |keys|
  {
    if k in keys {
      var i := Find(keys, k);
      assert forall j :: 0 <= j < i ==> keys[..i][j] == keys[j];
    }
  }

  /** The table after entering all of ks in turn. */
  function EnteredAll(keys: seq<Key>, ks: seq<Key>): (r: seq<Key>)
    decreases |ks|
  {
    if ks == [] then keys else Entered(EnteredAll(keys, ks[..|ks| - 1]), ks[|ks| - 1])
  }

  /** The index handed back for the n'th of them. */
  function NthIndex(keys: seq<Key>, ks: seq<Key>, n: nat): Word
    requires n < |ks| && |EnteredAll(keys, ks[..n])| <= SYMTAB_MAX
  {
    IndexFor(EnteredAll(keys, ks[..n]), ks[n])
  }

  lemma {:induction false} EnteredAllFits(keys: seq<Key>, ks: seq<Key>)
    requires |keys| <= SYMTAB_MAX
    ensures |EnteredAll(keys, ks)| <= SYMTAB_MAX
    decreases |ks|
  {
    if ks != [] {
      EnteredAllFits(keys, ks[..|ks| - 1]);
    }
  }

  lemma EnteredNext(keys: seq<Key>, ks: seq<Key>, n: nat)
    requires n < |ks|
    ensures EnteredAll(keys, ks[..n + 1]) == Entered(EnteredAll(keys, ks[..n]), ks[n])
  {
    assert ks[..n + 1][..n] == ks[..n] && ks[..n + 1][n] == ks[n];
  }

  lemma {:induction false} EnteredAllGrows(keys: seq<Key>, ks: seq<Key>, m: nat, n: nat)
    requires m <= n <= |ks|
    ensures EnteredAll(keys, ks[..m]) <= EnteredAll(keys, ks[..n])
    decreases n
  {
    hide EnteredAll;
    if m < n {
      EnteredAllGrows(keys, ks, m, n - 1);
      EnteredNext(keys, ks, n - 1);
    }
  }

  /** An index handed out denotes its key ever after: in the table as it is after any
      later number n of entries, whatever those are. */
  lemma IndexDenotes(keys: seq<Key>, ks: seq<Key>, i: nat, n: nat)
    requires |keys| <= SYMTAB_MAX && i < n <= |ks|
    ensures |EnteredAll(keys, ks[..i])| <= SYMTAB_MAX
    ensures var x, table := NthIndex(keys, ks, i), EnteredAll(keys, ks[..n]);
      x < ERR_BASE ==> x < |table| && table[x] == ks[i]
  {
    hide EnteredAll;
    EnteredAllFits(keys, ks[..i]);
    EnteredNext(keys, ks, i);
    EnteredAllGrows(keys, ks, i + 1, n);
  }

  /** The first entry for a key stays the first as the table grows. */
  lemma FindPrefix(keys: seq<Key>, more: seq<Key>, k: Key)
    requires keys <= more && k in keys
    ensures Find(more, k) == Find(keys, k)
  {
    var i := Find(keys, k);
    assert more[i] == k;
  }

  /** Once entered, a key that can be looked up is known by its first entry. */
  lemma KnownAfter(keys: seq<Key>, k: Key)
    requires |keys| <= SYMTAB_MAX && !TooLong(k) && IndexFor(keys, k) < ERR_BASE
    ensures k in Entered(keys, k) && Find(Entered(keys, k), k) == IndexFor(keys, k)
  {
    if k in keys {
      FindPrefix(keys, Entered(keys, k), k);
    } else {
      var table := Entered(keys, k);
      assert table[|keys|] == k;
    }
  }

  /** Over any sequence of entries, two that got an index got the same one if and only
      if they entered the same key and it was not too long to be looked up: so every
      entry of an over-long string makes a symbol of its own. */
  lemma SameIndexSameKey(keys: seq<Key>, ks: seq<Key>, i: nat, j: nat)
    requires |keys| <= SYMTAB_MAX && i < j < |ks|
    ensures |EnteredAll(keys, ks[..i])| <= SYMTAB_MAX && |EnteredAll(keys, ks[..j])| <= SYMTAB_MAX
    ensures var x, y := NthIndex(keys, ks, i), NthIndex(keys, ks, j);
      x < ERR_BASE && y < ERR_BASE ==> (x == y <==> ks[i] == ks[j] && !TooLong(ks[i]))
  {
    hide EnteredAll;
    EnteredAllFits(keys, ks[..i]);
    EnteredAllFits(keys, ks[..j]);
    IndexDenotes(keys, ks, i, j);
    IndexDenotes(keys, ks, i, j + 1);
    IndexDenotes(keys, ks, j, j + 1);
    if NthIndex(keys, ks, i) < ERR_BASE && ks[i] == ks[j] && !TooLong(ks[i]) {
      KnownAfter(EnteredAll(keys, ks[..i]), ks[i]);
      EnteredNext(keys, ks, i);
      EnteredAllGrows(keys, ks, i + 1, j);
      FindPrefix(EnteredAll(keys, ks[..i + 1]), EnteredAll(keys, ks[..j]), ks[i]);
    }
  }
}
