/** The symbol and string tables themselves: packed arrays searched linearly. */
module SymbolTable {
  import opened Words
  import opened Symbols

  datatype Syment = Syment(Val: Word, Len: Byte, Info: Byte)

  /** A string entry lies in the committed part of the string table. */
  predicate Committed(e: Syment, next: nat) {
    e.Len > 0 ==> e.Val as int + e.Len as int <= next
  }

  predicate AllCommitted(es: seq<Syment>, next: nat) {
    forall i :: 0 <= i < |es| ==> Committed(es[i], next)
  }

  function KeyOf(e: Syment, strings: seq<Byte>): Key
    requires Committed(e, |strings|)
  {
    if e.Len == 0 then Num(e.Val) else Str(strings[e.Val..e.Val as int + e.Len as int])
  }

  function KeysOf(es: seq<Syment>, strings: seq<Byte>): (keys: seq<Key>)
    requires AllCommitted(es, |strings|)
    ensures |keys| == |es|
    ensures forall i :: 0 <= i < |es| ==> keys[i] == KeyOf(es[i], strings)
  {
    seq(|es|, i requires 0 <= i < |es| => KeyOf(es[i], strings))
  }

  /** Adding an entry, and committing its string, leaves the old keys as they were. */
  lemma KeysAppended(es: seq<Syment>, strings: seq<Byte>, e: Syment, more: seq<Byte>)
    requires AllCommitted(es, |strings|) && Committed(e, |strings + more|)
    ensures AllCommitted(es + [e], |strings + more|)
    ensures KeysOf(es + [e], strings + more) == KeysOf(es, strings) + [KeyOf(e, strings + more)]
  {
    forall i | 0 <= i < |es| ensures KeyOf(es[i], strings + more) == KeyOf(es[i], strings) {
      if es[i].Len > 0 {
        var hi := es[i].Val as int + es[i].Len as int;
        assert (strings + more)[es[i].Val..hi] == strings[es[i].Val..hi];
      }
    }
  }

  class Table {
    const symtab: array<Syment>
    var symtabNext: nat
    const strtab: array<Byte>
    var strtabNext: nat

    ghost predicate Valid()
      reads this, symtab, strtab
    {
      && symtab.Length == SYMTAB_MAX && strtab.Length == STRTAB_MAX
      && 1 <= symtabNext <= SYMTAB_MAX && 1 <= strtabNext <= STRTAB_MAX
      && AllCommitted(symtab[..symtabNext], strtabNext)
    }

    /** The keys the entries stand for, entry 0 included. */
    ghost function Keys(): (keys: seq<Key>)
      requires Valid()
      reads this, symtab, strtab
      ensures |keys| == symtabNext
    {
      KeysOf(symtab[..symtabNext], strtab[..strtabNext])
    }

    constructor ()
      ensures Valid() && fresh(symtab) && fresh(strtab)
      ensures Keys() == [Num(0)] && strtabNext == 1
    {
      symtab := new Syment[SYMTAB_MAX](i => Syment(0, 0, 0));
      strtab := new Byte[STRTAB_MAX](i => 0);
      symtabNext, strtabNext := 1, 1;
    }

    /** Where the next string goes, if there is room for the longest. */
    method StrtabAllocate() returns (pos: Word)
      requires Valid()
      ensures pos == if STRTAB_MAX - strtabNext < SYMLEN_MAX then ERR_INT_NOSTR else strtabNext
    {
      if STRTAB_MAX - strtabNext < SYMLEN_MAX {
        return ERR_INT_NOSTR;
      }
      return strtabNext;
    }

    method StrtabRemaining() returns (n: Word)
      requires Valid()
      ensures n == if STRTAB_MAX - strtabNext < SYMLEN_MAX then 0 else STRTAB_MAX - strtabNext
    {
      if STRTAB_MAX - strtabNext < SYMLEN_MAX {
        return 0;
      }
      return STRTAB_MAX - strtabNext;
    }

    /** The string waiting to be entered: len bytes past the committed ones. */
    ghost function Waiting(len: nat): seq<Byte>
      requires Valid() && strtabNext + len <= STRTAB_MAX
      reads this, symtab, strtab
    {
      strtab[strtabNext..strtabNext + len]
    }

    method NumLookup(val: Word) returns (r: Word)
      requires Valid()
      ensures r == if Num(val) in Keys() then Find(Keys(), Num(val)) else ERR_SYM_NODEF
    {
      var i := 0;
      while i < symtabNext
        invariant i <= symtabNext
        invariant forall j :: 0 <= j < i ==> Keys()[j] != Num(val)
      {
        if symtab[i].Len == 0 && symtab[i].Val == val {
          FirstIsFound(Keys(), Num(val), i);
          return i;
        }
        i := i + 1;
      }
      return ERR_SYM_NODEF;
    }

    /** Does entry i spell the len bytes at val? */
    method SameString(i: nat, val: nat, len: nat) returns (same: bool)
      requires Valid() && i < symtabNext && symtab[i].Len == len > 0 && val + len <= STRTAB_MAX
      ensures same <==> Keys()[i] == Str(strtab[val..val + len])
    {
      var s: int := symtab[i].Val;
      ghost var a, b := strtab[..strtabNext][s..s + len], strtab[val..val + len];
      var j := 0;
      while j < len
        invariant j <= len && forall k :: 0 <= k < j ==> a[k] == b[k]
      {
        assert a[j] == strtab[s + j] && b[j] == strtab[val + j];
        if strtab[s + j] != strtab[val + j] {
          return false;
        }
        j := j + 1;
      }
      return true;
    }

    method SymLookup(val: nat, len: Byte) returns (r: Word)
      requires Valid() && val + len <= STRTAB_MAX
      ensures len == 0 ==> r == ERR_INT_BUG
      ensures len > SYMLEN_MAX ==> r == ERR_INT_TOOBIG
      ensures 0 < len <= SYMLEN_MAX ==>
        var k := Str(strtab[val..val + len]);
        r == if k in Keys() then Find(Keys(), k) else ERR_SYM_NODEF
    {
      if len == 0 { return ERR_INT_BUG; }
      if len > SYMLEN_MAX { return ERR_INT_TOOBIG; }
      ghost var k := Str(strtab[val..val + len]);
      var i := 0;
      while i < symtabNext
        invariant i <= symtabNext
        invariant forall j :: 0 <= j < i ==> Keys()[j] != k
      {
        if symtab[i].Len == len {
          var same := SameString(i, val, len);
          if same {
            FirstIsFound(Keys(), k, i);
            return i;
          }
        }
        i := i + 1;
      }
      return ERR_SYM_NODEF;
    }

    /** Add an entry, committing the len bytes of its string. */
    method Append(val: Word, len: Byte)
      requires Valid() && symtabNext < SYMTAB_MAX
      requires strtabNext + len <= STRTAB_MAX && (len > 0 ==> val == strtabNext)
      modifies `symtabNext, `strtabNext, symtab
      ensures Valid() && strtabNext == old(strtabNext) + len
      ensures Keys() == old(Keys()) + [if len == 0 then Num(val) else Str(old(Waiting(len)))]
    {
      ghost var es, strings, more := symtab[..symtabNext], strtab[..strtabNext], Waiting(len);
      var e := Syment(val, len, 0);
      symtab[symtabNext] := e;
      symtabNext := symtabNext + 1;
      strtabNext := strtabNext + len;
      assert symtab[..symtabNext] == es + [e] && strtab[..strtabNext] == strings + more;
      assert len > 0 ==> (strings + more)[val..val + len] == more;
      KeysAppended(es, strings, e, more);
    }

    /** Enter a number, or the string waiting in the string table.  A known key keeps
        its entry; an unknown one gets the next. */
    method SymEnter(val: Word, len: Byte) returns (r: Word)
      requires Valid() && strtabNext + len <= STRTAB_MAX && (len > 0 ==> val == strtabNext)
      modifies `symtabNext, `strtabNext, symtab
      ensures Valid()
      ensures var k := if len == 0 then Num(val) else Str(old(Waiting(len)));
        && r == IndexFor(old(Keys()), k)
        && Keys() == Entered(old(Keys()), k)
        && strtabNext == old(strtabNext) + if Keys() == old(Keys()) then 0 else len
    {
      hide AllCommitted, KeysOf;
      if len == 0 {
        r := NumLookup(val);
      } else {
        r := SymLookup(val, len);
      }
      if r < symtabNext {
        return;
      }
      if symtabNext >= SYMTAB_MAX {
        return ERR_INT_NOSYM;
      }
      r := symtabNext;
      Append(val, len);
    }

    /** Put a byte where the next string goes; no entry changes. */
    method PutWaiting(b: Byte)
      requires Valid() && strtabNext < STRTAB_MAX
      modifies strtab
      ensures Valid() && Keys() == old(Keys()) && strtab[strtabNext] == b
      ensures Waiting(1) == [b]
    {
      strtab[strtabNext] := b;
      assert strtab[..strtabNext] == old(strtab[..strtabNext]);
    }
  }

  lemma {:induction false} FirstIsFound(keys: seq<Key>, k: Key, i: nat)
    requires i < |keys| && keys[i] == k && forall j :: 0 <= j < i ==> keys[j] != k
    ensures Find(keys, k) == i && k in keys
  {
    var f := Find(keys, k);
    assert f <= i;
  }
}
