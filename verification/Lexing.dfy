/** What the YAPL-1 lexer is meant to do to a stream of bytes. */
module Lexing {
  import opened Words
  import opened Symbols

  const T_USR: Word := 0x0000
  const T_KEY: Word := 0x4000
  const T_NUM: Word := 0x8000
  const T_EOF: Word := 0xFFFF
  const ERR_LEX_INVAL: Word := 0xC101
  const ERR_LEX_IO: Word := 0xC102

  const NEWLINE: Byte := 10
  const HASH: Byte := 35

  predicate IsWhite(b: Byte) { b == 32 || b == 9 || b == 10 }
  predicate IsDigit(b: Byte) { 48 <= b <= 57 }
  predicate IsLower(b: Byte) { 97 <= b <= 122 }
  predicate IsUpper(b: Byte) { 65 <= b <= 90 }

  /** = + { } ; */
  predicate IsPunctuation(b: Byte) { b == 61 || b == 43 || b == 123 || b == 125 || b == 59 }

  // ---- The significant bytes ----

  /** The bytes that are left when whitespace and comments are dropped. */
  function Significant(bs: seq<Byte>, inComment: bool): seq<Byte> {
    if bs == [] then []
    else if bs[0] == NEWLINE then Significant(bs[1..], false)
    else if inComment then Significant(bs[1..], true)
    else if bs[0] == HASH then Significant(bs[1..], true)
    else if IsWhite(bs[0]) then Significant(bs[1..], false)
    else [bs[0]] + Significant(bs[1..], false)
  }

  function Newlines(bs: seq<Byte>): nat {
    if bs == [] then 0 else (if bs[0] == NEWLINE then 1 else 0) + Newlines(bs[1..])
  }

  /** Some byte from position q on is a hash, with no newline after it: what follows bs is
      in a comment. */
  predicate EndsInComment(bs: seq<Byte>) {
    exists q :: 0 <= q < |bs| && bs[q] == HASH && forall p :: q < p < |bs| ==> bs[p] != NEWLINE
  }

  /** A byte is significant exactly when it is no space, tab, newline or hash and no hash
      comes before it on its line. */
  lemma {:induction false} SignificantNext(bs: seq<Byte>, b: Byte)
    ensures Significant(bs + [b], false) ==
      Significant(bs, false) + if b in {32, 9, 10, 35} || EndsInComment(bs) then [] else [b]
  {
    SignificantSplit(bs, b, false);
    CommentAtEnd(bs, false);
  }

  /** Whether a comment is open after bs. */
  function InCommentAfter(bs: seq<Byte>, inComment: bool): bool {
    if bs == [] then inComment
    else InCommentAfter(bs[1..], bs[0] != NEWLINE && (inComment || bs[0] == HASH))
  }

  lemma {:induction false} SignificantSplit(bs: seq<Byte>, b: Byte, inComment: bool)
    ensures Significant(bs + [b], inComment) ==
      Significant(bs, inComment) + if b in {32, 9, 10, 35} || InCommentAfter(bs, inComment) then [] else [b]
  {
    if bs == [] {
      assert [] + [b] == [b] && [b][1..] == [];
    } else {
      assert (bs + [b])[1..] == bs[1..] + [b] && (bs + [b])[0] == bs[0];
      SignificantSplit(bs[1..], b, bs[0] != NEWLINE && (inComment || bs[0] == HASH));
    }
  }

  /** A comment is open after bs exactly when one was before it and bs has no newline, or bs
      opens one itself. */
  lemma {:induction false} CommentAtEnd(bs: seq<Byte>, inComment: bool)
    ensures InCommentAfter(bs, inComment) <==> EndsInComment(bs) || (inComment && NEWLINE !in bs)
  {
    if bs != [] {
      var rest := bs[1..];
      CommentAtEnd(rest, bs[0] != NEWLINE && (inComment || bs[0] == HASH));
      assert NEWLINE in bs <==> bs[0] == NEWLINE || NEWLINE in rest;
      CommentSplit(bs);
    }
  }

  lemma CommentSplit(bs: seq<Byte>)
    requires bs != []
    ensures EndsInComment(bs) <==> EndsInComment(bs[1..]) || (bs[0] == HASH && NEWLINE !in bs[1..])
  {
    var rest := bs[1..];
    if EndsInComment(bs) {
      var q :| 0 <= q < |bs| && bs[q] == HASH && forall p :: q < p < |bs| ==> bs[p] != NEWLINE;
      if q > 0 {
        assert rest[q - 1] == HASH && forall p :: q - 1 < p < |rest| ==> rest[p] == bs[p + 1];
      } else {
        assert forall p :: 0 <= p < |rest| ==> rest[p] == bs[p + 1];
      }
    }
    if EndsInComment(rest) {
      var q :| 0 <= q < |rest| && rest[q] == HASH && forall p :: q < p < |rest| ==> rest[p] != NEWLINE;
      assert bs[q + 1] == HASH && forall p :: q + 1 < p < |bs| ==> bs[p] == rest[p - 1];
    } else if bs[0] == HASH && NEWLINE !in rest {
      assert forall p :: 0 < p < |bs| ==> bs[p] == rest[p - 1];
    }
  }

  /** Lines are counted by their newlines, wherever those are. */
  lemma {:induction false} NewlinesCounted(bs: seq<Byte>)
    ensures Newlines(bs) == multiset(bs)[10]
  {
    if bs != [] {
      NewlinesCounted(bs[1..]);
      assert bs == [bs[0]] + bs[1..];
    }
  }

  // ---- Tokens ----

  /** The kind of token a significant byte makes. */
  datatype Class = Number | User | Keyword | Invalid

  function ClassOf(b: Byte): Class {
    if IsDigit(b) then Number
    else if IsLower(b) then User
    else if IsUpper(b) || IsPunctuation(b) then Keyword
    else Invalid
  }

  /** The symbol a significant byte names. */
  function KeyFor(b: Byte): Key {
    if IsDigit(b) then Num(b - 48) else Str([b])
  }

  function Tag(c: Class): Word {
    match c
    case Number => T_NUM
    case User => T_USR
    case Keyword => T_KEY
    case Invalid => 0
  }

  /** Tag an index; an error code has both tag bits set already. */
  function Tagged(tag: Word, r: Word): Word
    requires tag <= T_NUM
  {
    if r >= ERR_BASE then r else if r < 0x4000 then tag + r else r
  }

  function SymIndex(t: Word): Word { t % 0x4000 }

  /** The table after the token for b, and the token. */
  function KeysAfter(keys: seq<Key>, b: Byte): seq<Key> {
    if ClassOf(b) == Invalid then keys else Entered(keys, KeyFor(b))
  }

  function TokenFor(keys: seq<Key>, b: Byte): Word
    requires |keys| <= SYMTAB_MAX
  {
    if ClassOf(b) == Invalid then ERR_LEX_INVAL
    else Tagged(Tag(ClassOf(b)), IndexFor(keys, KeyFor(b)))
  }

  // ---- The table never fills up ----

  /** The table holds numbers below ten and strings of one byte, all different, the
      number 0 first. */
  predicate LexTable(keys: seq<Key>) {
    && Interned(keys) && keys != [] && keys[0] == Num(0)
    && forall i :: 0 <= i < |keys| ==> Small(keys[i])
  }

  predicate Small(k: Key) {
    match k
    case Num(v) => v < 10
    case Str(s) => |s| == 1
  }

  function Code(k: Key): nat
    requires Small(k)
  {
    match k
    case Num(v) => 256 + v
    case Str(s) => s[0]
  }

  const LEX_MAX := 266

  lemma {:induction false} Pigeonhole(s: seq<nat>, n: nat)
    requires forall i, j :: 0 <= i < j < |s| ==> s[i] != s[j]
    requires forall i :: 0 <= i < |s| ==> s[i] < n
    ensures |s| <= n
    decreases n
  {
    if s != [] {
      assert s[0] < n;
      if n - 1 in s {
        var i :| 0 <= i < |s| && s[i] == n - 1;
        var t := s[..i] + s[i + 1..];
        assert forall j :: 0 <= j < |t| ==> t[j] == s[if j < i then j else j + 1];
        Pigeonhole(t, n - 1);
      } else {
        Pigeonhole(s, n - 1);
      }
    }
  }

  lemma SmallTable(keys: seq<Key>)
    requires LexTable(keys)
    ensures |keys| <= LEX_MAX
  {
    var codes := seq(|keys|, i requires 0 <= i < |keys| => Code(keys[i]));
    forall i, j | 0 <= i < j < |codes| ensures codes[i] != codes[j] {
      assert keys[i] != keys[j] && Small(keys[i]) && Small(keys[j]);
      if keys[i].Str? && keys[j].Str? {
        assert keys[i].s == [keys[i].s[0]] && keys[j].s == [keys[j].s[0]];
      }
    }
    Pigeonhole(codes, LEX_MAX);
  }

  lemma KeysAfterOk(keys: seq<Key>, b: Byte)
    requires LexTable(keys)
    ensures LexTable(KeysAfter(keys, b)) && keys <= KeysAfter(keys, b)
  {
    if ClassOf(b) != Invalid {
      EnteredInterned(keys, KeyFor(b));
    }
  }

  /** The index entered for a byte is small, denotes it, and is 0 only for the digit 0. */
  lemma IndexOk(keys: seq<Key>, b: Byte)
    requires LexTable(keys) && ClassOf(b) != Invalid
    ensures |keys| <= LEX_MAX
    ensures var r := IndexFor(keys, KeyFor(b));
      && r <= LEX_MAX && r < |KeysAfter(keys, b)| && KeysAfter(keys, b)[r] == KeyFor(b)
      && (r == 0 ==> ClassOf(b) == Number)
  {
    hide Interned;
    SmallTable(keys);
  }

  /** Lexing one more byte keeps the table small; its token is never 0, carries the
      tag of its kind, and leads back to the byte. */
  lemma TokenOk(keys: seq<Key>, b: Byte)
    requires LexTable(keys)
    ensures |keys| <= LEX_MAX && LexTable(KeysAfter(keys, b)) && keys <= KeysAfter(keys, b)
    ensures TokenFor(keys, b) != 0
    ensures ClassOf(b) == Invalid <==> TokenFor(keys, b) >= ERR_BASE
    ensures ClassOf(b) == Invalid ==> TokenFor(keys, b) == ERR_LEX_INVAL
    ensures ClassOf(b) != Invalid ==>
      var t := TokenFor(keys, b);
      && t - t % 0x4000 == Tag(ClassOf(b))
      && SymIndex(t) < |KeysAfter(keys, b)| && KeysAfter(keys, b)[SymIndex(t)] == KeyFor(b)
  {
    hide LexTable, KeysAfter, KeyFor, ClassOf, IndexFor;
    SmallTable(keys);
    KeysAfterOk(keys, b);
    if ClassOf(b) != Invalid {
      IndexOk(keys, b);
      var r := IndexFor(keys, KeyFor(b));
      assert (Tag(ClassOf(b)) + r) % 0x4000 == r;
    }
  }

  // ---- Token streams ----

  function KeysAfterAll(keys: seq<Key>, bs: seq<Byte>): seq<Key>
    decreases |bs|
  {
    if bs == [] then keys else KeysAfterAll(KeysAfter(keys, bs[0]), bs[1..])
  }

  /** The tokens of a sequence of significant bytes. */
  function Tokens(keys: seq<Key>, bs: seq<Byte>): (ts: seq<Word>)
    requires LexTable(keys)
    ensures |ts| == |bs|
    decreases |bs|
  {
    if bs == [] then []
    else
      TokenOk(keys, bs[0]);
      [TokenFor(keys, bs[0])] + Tokens(KeysAfter(keys, bs[0]), bs[1..])
  }

  lemma {:induction false} KeysAfterAllOk(keys: seq<Key>, bs: seq<Byte>)
    requires LexTable(keys)
    ensures LexTable(KeysAfterAll(keys, bs)) && keys <= KeysAfterAll(keys, bs)
    decreases |bs|
  {
    if bs != [] {
      TokenOk(keys, bs[0]);
      KeysAfterAllOk(KeysAfter(keys, bs[0]), bs[1..]);
    }
  }

  /** In the finished table every token still leads back to its source byte, none is
      0, and only invalid bytes give errors. */
  lemma {:induction false} TokensDenote(keys: seq<Key>, bs: seq<Byte>, i: nat)
    requires LexTable(keys) && i < |bs|
    ensures var t, table := Tokens(keys, bs)[i], KeysAfterAll(keys, bs);
      && t != 0 && (ClassOf(bs[i]) == Invalid <==> t >= ERR_BASE)
      && (ClassOf(bs[i]) == Invalid ==> t == ERR_LEX_INVAL)
      && (ClassOf(bs[i]) != Invalid ==>
           && t - t % 0x4000 == Tag(ClassOf(bs[i]))
           && SymIndex(t) < |table| && table[SymIndex(t)] == KeyFor(bs[i]))
    decreases |bs|
  {
    hide LexTable, KeysAfter, TokenFor, ClassOf, KeyFor, Tag;
    TokenOk(keys, bs[0]);
    KeysAfterAllOk(KeysAfter(keys, bs[0]), bs[1..]);
    if i > 0 {
      TokensDenote(KeysAfter(keys, bs[0]), bs[1..], i - 1);
    }
  }

  /** What the token of a byte means, in the finished table: a digit is a number of that
      value, a lower-case letter a user symbol and an upper-case letter or punctuation
      mark a keyword, both of that one byte; anything else is an error. */
  lemma TokensMean(keys: seq<Key>, bs: seq<Byte>, i: nat)
    requires LexTable(keys) && i < |bs|
    ensures var t, table, b := Tokens(keys, bs)[i], KeysAfterAll(keys, bs), bs[i];
      var kind, index := t / 0x4000, t % 0x4000;
      if 48 <= b <= 57 then kind == 2 && index < |table| && table[index] == Num(b - 48)
      else if 97 <= b <= 122 then kind == 0 && index < |table| && table[index] == Str([b])
      else if 65 <= b <= 90 || b in {61, 43, 123, 125, 59} then kind == 1 && index < |table| && table[index] == Str([b])
      else t == 0xC101
  {
    hide Tokens, KeysAfterAll, LexTable;
    TokensDenote(keys, bs, i);
    var t := Tokens(keys, bs)[i];
    assert t == t / 0x4000 * 0x4000 + t % 0x4000;
  }

  /** Two valid bytes of the stream give the same token exactly when they are equal. */
  lemma TokensDistinguish(keys: seq<Key>, bs: seq<Byte>, i: nat, j: nat)
    requires LexTable(keys) && i < |bs| && j < |bs|
    requires ClassOf(bs[i]) != Invalid && ClassOf(bs[j]) != Invalid
    ensures Tokens(keys, bs)[i] == Tokens(keys, bs)[j] <==> bs[i] == bs[j]
  {
    hide Tokens, KeysAfterAll;
    TokensDenote(keys, bs, i);
    TokensDenote(keys, bs, j);
    KeysAfterAllOk(keys, bs);
    KeyForInjective(bs[i], bs[j]);
  }

  lemma KeyForInjective(a: Byte, b: Byte)
    ensures KeyFor(a) == KeyFor(b) <==> a == b
  {
    if KeyFor(a).Str? && KeyFor(b).Str? && KeyFor(a) == KeyFor(b) {
      assert [a][0] == [b][0];
    }
  }
}
