/** The security universe parser of securities/fetchdata.go (repeated in
    fetchdata.go): symbols are normalised, symbols of eight bytes or more are
    dropped as expired, and each remaining symbol is kept once, at its first
    occurrence. The lines are the records of the CSV file, already split into
    columns. */
module Securities {
  import opened Seqs
  import opened GoStrings

  /** `normalizeSymbol`: the first white-space separated field, with every `/`
      rewritten to `.`. Go panics on a symbol with no field at all. */
  function NormalizeSymbol(symbol: string): (r: string)
    requires Fields(symbol) != []
    ensures IsWord(r) && '/' !in r
    ensures |r| == |Fields(symbol)[0]|
  {
    ReplaceAll(Fields(symbol)[0], '/', '.')
  }

  /** Replacing a character that does not occur changes nothing. */
  lemma {:induction false} ReplaceAbsent(s: string, from: char, to: char)
    requires from !in s
    ensures ReplaceAll(s, from, to) == s
  {
    if s != [] {
      ReplaceAbsent(s[1..], from, to);
    }
  }

  /** Normalising a normalised symbol changes nothing. */
  lemma NormalizeIdempotent(symbol: string)
    requires Fields(symbol) != []
    ensures Fields(NormalizeSymbol(symbol)) != []
    ensures NormalizeSymbol(NormalizeSymbol(symbol)) == NormalizeSymbol(symbol)
  {
    var r := NormalizeSymbol(symbol);
    FieldsOfWord(r);
    ReplaceAbsent(r, '/', '.');
  }

  /** Only the first field counts: a word followed by white space and anything
      else normalises to the word with `/` rewritten. */
  lemma NormalizeFirstField(w: string, c: char, rest: string)
    requires IsWord(w) && IsSpace(c)
    ensures Fields(w + [c] + rest) != []
    ensures NormalizeSymbol(w + [c] + rest) == ReplaceAll(w, '/', '.')
  {
    FieldsAppend(w, c, rest);
    FieldsOfWord(w);
  }

  /** Every line has a first column with at least one field. */
  predicate LinesOk(lines: seq<seq<string>>) {
    forall i :: 0 <= i < |lines| ==> |lines[i]| > 0 && Fields(lines[i][0]) != []
  }

  /** The normalised symbol of one line. */
  function SymbolOf(line: seq<string>): string
    requires |line| > 0 && Fields(line[0]) != []
  {
    NormalizeSymbol(line[0])
  }

  /** A symbol is expired when its UTF-8 encoding takes eight bytes or more. */
  predicate Expired(symbol: string) {
    Utf8Len(symbol) >= 8
  }

  /** What `parseSecurities` returns, defined line by line from the back so that it
      follows the loop: a line adds its symbol unless it is expired or already
      listed. */
  function Parsed(lines: seq<seq<string>>): seq<string>
    requires LinesOk(lines)
  {
    if lines == [] then []
    else
      var prev := Parsed(lines[..|lines| - 1]);
      var symb := SymbolOf(lines[|lines| - 1]);
      if Expired(symb) || symb in prev then prev else prev + [symb]
  }

  /** `parseSecurities`: the loop with its `exists` set (here `seen`) and its
      `symbols` slice. */
  method ParseSecurities(lines: seq<seq<string>>) returns (symbols: seq<string>)
    requires LinesOk(lines)
    ensures symbols == Parsed(lines)
  {
    symbols := [];
    var seen: set<string> := {};
    for i := 0 to |lines|
      invariant symbols == Parsed(lines[..i]) && seen == Elems(symbols)
    {
      assert lines[..i + 1][..i] == lines[..i];
      var symb := NormalizeSymbol(lines[i][0]);
      if Utf8Len(symb) >= 8 {
        continue;
      }
      if symb in seen {
        continue;
      }
      ElemsSnoc(symbols, symb);
      symbols := symbols + [symb];
      seen := seen + {symb};
    }
    assert lines[..|lines|] == lines;
  }

  /** The normalised symbols of all lines, in line order. */
  function Symbols(lines: seq<seq<string>>): (r: seq<string>)
    requires LinesOk(lines)
    ensures |r| == |lines|
    ensures forall i :: 0 <= i < |lines| ==> r[i] == SymbolOf(lines[i])
  {
    if lines == [] then []
    else Symbols(lines[..|lines| - 1]) + [SymbolOf(lines[|lines| - 1])]
  }

  /** No symbol is listed twice. */
  lemma {:induction false} ParsedDistinct(lines: seq<seq<string>>)
    requires LinesOk(lines)
    ensures Distinct(Parsed(lines))
  {
    if lines != [] {
      var prev := Parsed(lines[..|lines| - 1]);
      ParsedDistinct(lines[..|lines| - 1]);
      var symb := SymbolOf(lines[|lines| - 1]);
      if !Expired(symb) && symb !in prev {
        DistinctSnoc(prev, symb);
      }
    }
  }

  /** Every listed symbol is shorter than eight bytes, has no white space and no
      `/`. */
  lemma {:induction false} ParsedShort(lines: seq<seq<string>>)
    requires LinesOk(lines)
    ensures forall s :: s in Parsed(lines) ==> Utf8Len(s) < 8 && IsWord(s) && '/' !in s
  {
    if lines != [] {
      ParsedShort(lines[..|lines| - 1]);
    }
  }

  /** A symbol is listed exactly when some line normalises to it and it is not
      expired. */
  lemma {:induction false} ParsedMembers(lines: seq<seq<string>>, s: string)
    requires LinesOk(lines)
    ensures s in Parsed(lines) <==> s in Symbols(lines) && !Expired(s)
  {
    if lines != [] {
      var init := lines[..|lines| - 1];
      ParsedMembers(init, s);
      assert Symbols(lines) == Symbols(init) + [SymbolOf(lines[|lines| - 1])];
    }
  }

  /** The position of the first occurrence of `x`. */
  function FirstIndex(s: seq<string>, x: string): (k: nat)
    requires x in s
    ensures k < |s| && s[k] == x
    ensures forall i :: 0 <= i < k ==> s[i] != x
  {
    if s[0] == x then 0 else 1 + FirstIndex(s[1..], x)
  }

  /** Appending does not move a first occurrence. */
  lemma FirstIndexAppend(s: seq<string>, t: seq<string>, x: string)
    requires x in s
    ensures FirstIndex(s + t, x) == FirstIndex(s, x)
  {
    var k := FirstIndex(s, x);
    assert (s + t)[k] == x;
  }

  /** Every element of `r` occurs in `all`, and `r` lists them in the order of
      their first occurrence in `all`. */
  predicate FirstOrder(r: seq<string>, all: seq<string>) {
    && (forall x :: x in r ==> x in all)
    && forall p, q :: 0 <= p < q < |r| ==> FirstIndex(all, r[p]) < FirstIndex(all, r[q])
  }

  /** Growing `all` keeps the order of what is already listed. */
  lemma FirstOrderExtend(r: seq<string>, all: seq<string>, y: string)
    requires FirstOrder(r, all)
    ensures FirstOrder(r, all + [y])
  {
    forall x | x in r
      ensures FirstIndex(all + [y], x) == FirstIndex(all, x)
    {
      FirstIndexAppend(all, [y], x);
    }
  }

  /** A symbol seen for the first time goes after everything already listed. */
  lemma FirstOrderSnoc(r: seq<string>, all: seq<string>, y: string)
    requires FirstOrder(r, all) && y !in all
    ensures FirstOrder(r + [y], all + [y])
  {
    FirstOrderExtend(r, all, y);
    assert FirstIndex(all + [y], y) == |all|;
    forall x | x in r
      ensures FirstIndex(all + [y], x) < |all|
    {
      FirstIndexAppend(all, [y], x);
    }
  }

  /** Symbols are listed in the order of their first line. */
  lemma {:induction false} ParsedOrder(lines: seq<seq<string>>)
    requires LinesOk(lines)
    ensures FirstOrder(Parsed(lines), Symbols(lines))
  {
    if lines != [] {
      var init := lines[..|lines| - 1];
      var prev, symb := Parsed(init), SymbolOf(lines[|lines| - 1]);
      ParsedOrder(init);
      assert Symbols(lines) == Symbols(init) + [symb];
      if !Expired(symb) && symb !in prev {
        ParsedMembers(init, symb);
        FirstOrderSnoc(prev, Symbols(init), symb);
      } else {
        FirstOrderExtend(prev, Symbols(init), symb);
      }
    }
  }
}
