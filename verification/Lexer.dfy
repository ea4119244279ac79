/** The YAPL-1 lexer: a loop over the input bytes that interns as it goes. */
module Lexer {
  import opened Words
  import opened Symbols
  import opened SymbolTable
  import opened Lexing

  /** The language's own symbols, in the order of their token values from 1 up. */
  const LANGUAGE: seq<Byte> := [
    65, 66, 67, 68,                     // A B C D
    69, 70, 73, 80, 81, 86,             // E F I P Q V
    35, 59, 61, 123, 125, 43, 63        // # ; = { } + ?
  ]

  /** The table once the first n language symbols are defined. */
  function LanguageKeys(n: nat): (keys: seq<Key>)
    requires n <= |LANGUAGE|
  {
    [Num(0)] + seq(n, i requires 0 <= i < n => Str([LANGUAGE[i]]))
  }

  lemma LanguageDistinct(n: nat)
    requires n < |LANGUAGE|
    ensures Str([LANGUAGE[n]]) !in LanguageKeys(n)
    ensures LanguageKeys(n + 1) == LanguageKeys(n) + [Str([LANGUAGE[n]])]
  {
    forall i | 0 <= i < n ensures [LANGUAGE[i]] != [LANGUAGE[n]] {
      assert [LANGUAGE[i]][0] != [LANGUAGE[n]][0];
    }
  }

  /** Bytes of strings in the table. */
  function StringBytes(keys: seq<Key>): nat {
    if keys == [] then 0
    else StringBytes(keys[..|keys| - 1]) + (var k := keys[|keys| - 1]; if k.Str? then |k.s| else 0)
  }

  lemma {:induction false} FewStringBytes(keys: seq<Key>)
    requires forall i :: 0 <= i < |keys| ==> Small(keys[i])
    ensures StringBytes(keys) <= |keys|
  {
    if keys != [] {
      FewStringBytes(keys[..|keys| - 1]);
    }
  }

  lemma StringBytesAppend(keys: seq<Key>, k: Key)
    ensures StringBytes(keys + [k]) == StringBytes(keys) + if k.Str? then |k.s| else 0
  {
    assert (keys + [k])[..|keys|] == keys;
  }

  /** Entering a small key keeps the table small, and commits just the key's string. */
  lemma EnteredSmall(keys: seq<Key>, k: Key)
    requires LexTable(keys) && Small(k)
    ensures |keys| <= LEX_MAX && LexTable(Entered(keys, k))
    ensures StringBytes(Entered(keys, k)) ==
      StringBytes(keys) + if Entered(keys, k) == keys || k.Num? then 0 else 1
  {
    hide StringBytes;
    SmallTable(keys);
    EnteredInterned(keys, k);
    StringBytesAppend(keys, k);
  }

  /** What the scan for the next significant byte finds. */
  datatype Scan = AtEnd(lines: nat) | Found(b: Byte, rest: seq<Byte>, lines: nat)

  function ScanFrom(bs: seq<Byte>, inComment: bool): (r: Scan)
    ensures r.Found? ==> |r.rest| < |bs|
  {
    if bs == [] then AtEnd(0)
    else if bs[0] == NEWLINE then OneMoreLine(ScanFrom(bs[1..], false))
    else if inComment || bs[0] == HASH then ScanFrom(bs[1..], true)
    else if IsWhite(bs[0]) then ScanFrom(bs[1..], false)
    else Found(bs[0], bs[1..], 0)
  }

  function OneMoreLine(s: Scan): Scan {
    s.(lines := s.lines + 1)
  }

  /** The scan splits off the first significant byte and counts the lines before it. */
  lemma {:induction false} ScanIsSignificant(bs: seq<Byte>, inComment: bool)
    ensures match ScanFrom(bs, inComment)
            case AtEnd(n) => Significant(bs, inComment) == [] && Newlines(bs) == n
            case Found(b, rest, n) =>
              && Significant(bs, inComment) == [b] + Significant(rest, false)
              && Newlines(bs) == n + Newlines(rest) && b != NEWLINE
  {
    if bs != [] {
      if bs[0] == NEWLINE { ScanIsSignificant(bs[1..], false); }
      else if inComment || bs[0] == HASH { ScanIsSignificant(bs[1..], true); }
      else if IsWhite(bs[0]) { ScanIsSignificant(bs[1..], false); }
    }
  }

  class Scanner {
    const table: Table
    var rest: seq<Byte>      // input not yet read
    const ending: Word       // what a read past the input returns
    var lineCount: Word
    var pbt: Word            // token pushed back, or 0

    ghost predicate Valid()
      reads this, table, table.symtab, table.strtab
    {
      && table.Valid() && ending > 0xFF
      && LexTable(table.Keys()) && table.strtabNext == 1 + StringBytes(table.Keys())
    }

    constructor (input: seq<Byte>, ending: Word)
      requires ending > 0xFF
      ensures Valid() && fresh(table) && fresh(table.symtab) && fresh(table.strtab)
      ensures rest == input && this.ending == ending && lineCount == 1 && pbt == 0
      ensures table.Keys() == LanguageKeys(|LANGUAGE|)
    {
      table := new Table();
      rest, this.ending, lineCount, pbt := input, ending, 1, 0;
      new;
      SymInit();
    }

    /** Define the language's symbols; each gets exactly the index its token value
        says, so the checks that would stop the compiler never fail. */
    method SymInit()
      requires table.Valid() && table.Keys() == [Num(0)] && table.strtabNext == 1 && ending > 0xFF
      modifies table, table.symtab, table.strtab
      ensures Valid() && table.Keys() == LanguageKeys(|LANGUAGE|)
    {
      var i := 0;
      while i < |LANGUAGE|
        invariant i <= |LANGUAGE| && Valid() && table.Keys() == LanguageKeys(i)
      {
        LanguageDistinct(i);
        AddLangSymbol(LANGUAGE[i], 1 + i);
        i := i + 1;
      }
    }

    method AddLangSymbol(sym: Byte, constval: Word)
      requires Valid() && Str([sym]) !in table.Keys() && constval == |table.Keys()|
      modifies table, table.symtab, table.strtab
      ensures Valid() && table.Keys() == old(table.Keys()) + [Str([sym])]
    {
      Roomy();
      var result := EnterByte(sym);
      if result >= ERR_BASE || result != constval {
        assert false;
      }
    }

    /** The table has room for as many more symbols as there can be. */
    lemma Roomy()
      requires Valid()
      ensures |table.Keys()| <= LEX_MAX && table.strtabNext <= 1 + LEX_MAX
    {
      SmallTable(table.Keys());
      FewStringBytes(table.Keys());
    }

    /** Enter a single-byte symbol. */
    method EnterByte(b: Byte) returns (r: Word)
      requires Valid()
      modifies table, table.symtab, table.strtab
      ensures Valid()
      ensures r == IndexFor(old(table.Keys()), Str([b]))
      ensures table.Keys() == Entered(old(table.Keys()), Str([b]))
    {
      hide LexTable, StringBytes, Entered, IndexFor;
      Roomy();
      EnteredSmall(table.Keys(), Str([b]));
      var pos := table.StrtabAllocate();
      table.PutWaiting(b);
      r := table.SymEnter(pos, 1);
    }

    method EnterDigit(v: Word) returns (r: Word)
      requires Valid() && v < 10
      modifies table, table.symtab
      ensures Valid()
      ensures r == IndexFor(old(table.Keys()), Num(v))
      ensures table.Keys() == Entered(old(table.Keys()), Num(v))
    {
      hide LexTable, StringBytes, Entered, IndexFor;
      Roomy();
      EnteredSmall(table.Keys(), Num(v));
      r := table.SymEnter(v, 0);
    }

    /** The token at the end of the input: end of file, or an input error. */
    function EndToken(): Word {
      if ending == T_EOF then T_EOF else ERR_LEX_IO
    }

    method PushbackToken(t: Word)
      requires Valid() && pbt == 0 && t != 0
      modifies `pbt
      ensures Valid() && pbt == t
    {
      pbt := t;
    }

    /** The token of a significant byte, entering its symbol. */
    method TokenOf(b: Byte) returns (t: Word)
      requires Valid()
      modifies table, table.symtab, table.strtab
      ensures Valid()
      ensures |old(table.Keys())| <= LEX_MAX && t == TokenFor(old(table.Keys()), b)
      ensures table.Keys() == KeysAfter(old(table.Keys()), b)
    {
      hide LexTable, StringBytes, Entered, IndexFor, Tagged;
      Roomy();
      if IsDigit(b) {
        var r := EnterDigit(b - 48);
        return Tagged(T_NUM, r);
      }
      if IsLower(b) {
        var r := EnterByte(b);
        return Tagged(T_USR, r);
      }
      if IsUpper(b) || IsPunctuation(b) {
        var r := EnterByte(b);
        return Tagged(T_KEY, r);
      }
      table.PutWaiting(b);
      return ERR_LEX_INVAL;
    }

    /** Read past whitespace and comments, through the next significant byte if any. */
    method NextSignificant() returns (found: bool, b: Byte)
      modifies `rest, `lineCount
      ensures match ScanFrom(old(rest), false)
              case AtEnd(n) =>
                !found && rest == [] && lineCount == (old(lineCount) + n) % 0x10000
              case Found(c, r, n) =>
                found && b == c && rest == r && lineCount == (old(lineCount) + n) % 0x10000
    {
      found, b := false, 0;
      var inComment := false;
      ghost var n := 0;
      while rest != []
        invariant lineCount == (old(lineCount) + n) % 0x10000
        invariant ScanFrom(old(rest), false) == After(ScanFrom(rest, inComment), n)
        decreases |rest|
      {
        b := rest[0];
        rest := rest[1..];
        if b == NEWLINE {
          inComment := false;
          lineCount := (lineCount + 1) % 0x10000;
          n := n + 1;
        } else if inComment {
        } else if b == HASH {
          inComment := true;
        } else if IsWhite(b) {
        } else {
          found := true;
          return;
        }
      }
    }

    /** The next token: one pushed back, or that of the next significant byte.  The
        string table is never too full to hold it. */
    method GetToken() returns (t: Word)
      requires Valid()
      modifies this, table, table.symtab, table.strtab
      ensures Valid() && pbt == 0
      ensures old(pbt) != 0 ==>
        t == old(pbt) && rest == old(rest) && lineCount == old(lineCount) && table.Keys() == old(table.Keys())
      ensures old(pbt) == 0 ==>
        match ScanFrom(old(rest), false)
        case AtEnd(n) =>
          && t == EndToken() && rest == [] && table.Keys() == old(table.Keys())
          && lineCount == (old(lineCount) + n) % 0x10000
        case Found(b, r, n) =>
          && |old(table.Keys())| <= LEX_MAX && t == TokenFor(old(table.Keys()), b)
          && rest == r && table.Keys() == KeysAfter(old(table.Keys()), b)
          && lineCount == (old(lineCount) + n) % 0x10000
    {
      hide ScanFrom, TokenFor, KeysAfter, LexTable, StringBytes;
      if pbt != 0 {
        t := pbt;
        pbt := 0;
        return;
      }
      var len := table.StrtabRemaining();
      Roomy();
      if len == 0 {
        assert false;
      }
      var found, b := NextSignificant();
      if found {
        t := TokenOf(b);
      } else {
        t := EndToken();
      }
    }

    /** Read a token, push it back and read it again: the same as reading it once. */
    method ReadAgain() returns (t: Word)
      requires Valid() && pbt == 0
      modifies this, table, table.symtab, table.strtab
      ensures Valid() && pbt == 0
      ensures match ScanFrom(old(rest), false)
              case AtEnd(n) =>
                && t == EndToken() && rest == [] && table.Keys() == old(table.Keys())
                && lineCount == (old(lineCount) + n) % 0x10000
              case Found(b, r, n) =>
                && |old(table.Keys())| <= LEX_MAX && t == TokenFor(old(table.Keys()), b)
                && rest == r && table.Keys() == KeysAfter(old(table.Keys()), b)
                && lineCount == (old(lineCount) + n) % 0x10000
    {
      hide ScanFrom, TokenFor, KeysAfter, LexTable, StringBytes;
      StreamStep(table.Keys(), rest);
      t := GetToken();
      PushbackToken(t);
      t := GetToken();
    }
  }

  /** A scan result with n more lines before it. */
  function After(s: Scan, n: nat): Scan {
    s.(lines := s.lines + n)
  }

  /** A byte's token is not the one that ends the input. */
  lemma TokenIsNotEnd(keys: seq<Key>, b: Byte)
    requires LexTable(keys)
    ensures |keys| <= LEX_MAX && TokenFor(keys, b) != T_EOF && TokenFor(keys, b) != ERR_LEX_IO
  {
    TokenOk(keys, b);
  }

  /** The tokens still to come, given the table and the unread input. */
  ghost function ToCome(keys: seq<Key>, rest: seq<Byte>): seq<Word>
    requires LexTable(keys)
  {
    Tokens(keys, Significant(rest, false))
  }

  lemma StreamStep(keys: seq<Key>, rest: seq<Byte>)
    requires LexTable(keys)
    ensures match ScanFrom(rest, false)
            case AtEnd(n) => ToCome(keys, rest) == [] && Newlines(rest) == n
            case Found(b, r, n) =>
              && LexTable(KeysAfter(keys, b)) && |keys| <= LEX_MAX
              && ToCome(keys, rest) == [TokenFor(keys, b)] + ToCome(KeysAfter(keys, b), r)
              && Newlines(rest) == n + Newlines(r)
              && TokenFor(keys, b) != T_EOF && TokenFor(keys, b) != ERR_LEX_IO && TokenFor(keys, b) != 0
  {
    hide ScanFrom, TokenFor, KeysAfter, LexTable;
    ScanIsSignificant(rest, false);
    if ScanFrom(rest, false).Found? {
      TokenOk(keys, ScanFrom(rest, false).b);
      TokenIsNotEnd(keys, ScanFrom(rest, false).b);
    }
  }

  /** Lex a whole input, pushing back and reading again whichever tokens one likes.  Its
      tokens are those of its significant bytes and then the end; the line count is one
      more than its newlines, as a 16-bit word. */
  method LexAll(input: seq<Byte>, ending: Word, again: nat -> bool) returns (tokens: seq<Word>, lines: Word)
    requires ending > 0xFF
    ensures LexTable(LanguageKeys(|LANGUAGE|))
    ensures tokens == Tokens(LanguageKeys(|LANGUAGE|), Significant(input, false))
                      + [if ending == T_EOF then T_EOF else ERR_LEX_IO]
    ensures lines == (1 + Newlines(input)) % 0x10000
  {
    hide LanguageKeys, LexTable, StringBytes, ScanFrom, TokenFor, KeysAfter, ToCome, Newlines;
    hide Tokens, Significant, AllCommitted, KeysOf;
    var s := new Scanner(input, ending);
    ghost var all, newlines := ToCome(s.table.Keys(), input), Newlines(input);
    assert all == Tokens(s.table.Keys(), Significant(input, false)) by { TokensToCome(s.table.Keys(), input); }
    tokens := [];
    while true
      invariant s.Valid() && s.pbt == 0 && s.ending == ending
      invariant fresh(s) && fresh(s.table) && fresh(s.table.symtab) && fresh(s.table.strtab)
      invariant tokens + ToCome(s.table.Keys(), s.rest) == all
      invariant (s.lineCount + Newlines(s.rest)) % 0x10000 == (1 + newlines) % 0x10000
      decreases |s.rest|
    {
      ghost var keys, seen := s.table.Keys(), tokens;
      StreamStep(keys, s.rest);
      LinesAdd(s.lineCount, s.rest);
      var t;
      if again(|tokens|) {
        t := s.ReadAgain();
      } else {
        t := s.GetToken();
      }
      tokens := tokens + [t];
      if t == s.EndToken() {
        lines := s.lineCount;
        return;
      }
      assert seen + ([t] + ToCome(s.table.Keys(), s.rest)) == tokens + ToCome(s.table.Keys(), s.rest);
    }
  }

  /** Counting lines in words, piece by piece, is counting them modulo the word size. */
  lemma LinesAdd(count: Word, rest: seq<Byte>)
    ensures match ScanFrom(rest, false)
            case AtEnd(n) => (count + n) % 0x10000 == (count + Newlines(rest)) % 0x10000
            case Found(b, r, n) =>
              ((count + n) % 0x10000 + Newlines(r)) % 0x10000 == (count + Newlines(rest)) % 0x10000
  {
    hide ScanFrom, Newlines;
    ScanIsSignificant(rest, false);
    match ScanFrom(rest, false)
    case AtEnd(n) =>
    case Found(b, r, n) => WrapAdd(count + n, Newlines(r));
  }

  lemma WrapAdd(a: nat, b: nat)
    ensures (a % 0x10000 + b) % 0x10000 == (a + b) % 0x10000
  {
    var q := a / 0x10000;
    assert a + b == a % 0x10000 + b + 0x10000 * q;
  }

  lemma TokensToCome(keys: seq<Key>, rest: seq<Byte>)
    requires LexTable(keys)
    ensures ToCome(keys, rest) == Tokens(keys, Significant(rest, false))
  {
  }
}
