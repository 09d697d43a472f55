/** The symbol to CIK code table of db/cikcodes.go (repeated in
    fetchdata.go). The SEC publishes one line per security, a lower-case symbol
    and its CIK number separated by white space; `Build` reads those lines and
    stores the upper-cased symbol with its number, and `Find` looks a symbol up.
    The HTTP read is not modelled: `Build` is given the lines it would read. */
module CikCodes {
  import opened Seqs
  import opened GoStrings

  /** Where the table is published. */
  const CikUrl: string := "https://www.sec.gov/include/ticker.txt"

  /** A line `parsecikcode` accepts: at least two fields, the second one a number
      `strconv.Atoi` reads without error. On any other line the Go code panics. */
  predicate CikLine(line: string) {
    |Fields(line)| >= 2 && AtoiOk(Fields(line)[1])
  }

  predicate CikLines(lines: seq<string>) {
    forall i :: 0 <= i < |lines| ==> CikLine(lines[i])
  }

  /** `parsecikcode`: the upper-cased first field and the value of the second. */
  function ParseCikCode(line: string): (r: (string, int))
    requires CikLine(line)
    ensures IsWord(r.0) && ToUpper(r.0) == r.0
    ensures MinInt <= r.1 <= MaxInt
  {
    var d := Fields(line);
    ToUpperIdempotent(d[0]);
    (ToUpper(d[0]), Atoi(d[1]))
  }

  /** A symbol and a number written out as a line parse back to the upper-cased
      symbol and the same number. */
  lemma CikRoundTrip(symbol: string, c: char, n: int)
    requires IsWord(symbol) && IsSpace(c) && MinInt <= n <= MaxInt
    ensures CikLine(symbol + [c] + Itoa(n))
    ensures ParseCikCode(symbol + [c] + Itoa(n)) == (ToUpper(symbol), n)
  {
    FieldsAppend(symbol, c, Itoa(n));
    FieldsOfWord(symbol);
    FieldsOfWord(Itoa(n));
    AtoiItoa(n);
  }

  /** Fields after the second are ignored. */
  lemma CikExtraFields(line: string, c: char, extra: string)
    requires CikLine(line) && IsSpace(c)
    ensures CikLine(line + [c] + extra)
    ensures ParseCikCode(line + [c] + extra) == ParseCikCode(line)
  {
    FieldsAppend(line, c, extra);
    assert Fields(line + [c] + extra)[..2] == Fields(line)[..2];
  }

  /** The symbol and code of every line, in order. */
  function Entries(lines: seq<string>): (r: seq<(string, int)>)
    requires CikLines(lines)
    ensures |r| == |lines|
    ensures forall i :: 0 <= i < |lines| ==> r[i] == ParseCikCode(lines[i])
  {
    seq(|lines|, i requires 0 <= i < |lines| => ParseCikCode(lines[i]))
  }

  /** One more line is one more entry. */
  lemma EntriesSnoc(lines: seq<string>, line: string)
    requires CikLines(lines) && CikLine(line)
    ensures CikLines(lines + [line])
    ensures Entries(lines + [line]) == Entries(lines) + [ParseCikCode(line)]
  {
  }

  /** Entry `i` is the last entry for `symbol`. */
  predicate LastFor(es: seq<(string, int)>, i: int, symbol: string) {
    && 0 <= i < |es| && es[i].0 == symbol
    && forall j :: i < j < |es| ==> es[j].0 != symbol
  }

  /** Some entry is for `symbol`. */
  predicate Listed(es: seq<(string, int)>, symbol: string) {
    exists i :: 0 <= i < |es| && es[i].0 == symbol
  }

  /** The per-line update of `Build`, `ccm.codes[symb] = cik`, folded over the
      entries from the first to the last. */
  function Fill(codes: map<string, int>, es: seq<(string, int)>): map<string, int> {
    if es == [] then codes
    else Fill(codes, es[..|es| - 1])[es[|es| - 1].0 := es[|es| - 1].1]
  }

  /** The symbols in the table are the old ones and those of the entries. */
  lemma {:induction false} FillKeys(codes: map<string, int>, es: seq<(string, int)>, symbol: string)
    ensures symbol in Fill(codes, es) <==> symbol in codes || Listed(es, symbol)
  {
    if es != [] {
      var init := es[..|es| - 1];
      FillKeys(codes, init, symbol);
      if Listed(init, symbol) {
        var i :| 0 <= i < |init| && init[i].0 == symbol;
        assert es[i].0 == symbol;
      }
      if Listed(es, symbol) && es[|es| - 1].0 != symbol {
        var i :| 0 <= i < |es| && es[i].0 == symbol;
        assert init[i].0 == symbol;
      }
    }
  }

  /** The last entry for a symbol decides its code: later lines overwrite earlier
      ones. */
  lemma {:induction false} FillLastWins(codes: map<string, int>, es: seq<(string, int)>, i: int, symbol: string)
    requires LastFor(es, i, symbol)
    ensures symbol in Fill(codes, es) && Fill(codes, es)[symbol] == es[i].1
  {
    var init := es[..|es| - 1];
    if i < |es| - 1 {
      assert es[|es| - 1].0 != symbol;
      assert LastFor(init, i, symbol);
      FillLastWins(codes, init, i, symbol);
    }
  }

  /** A symbol no entry mentions keeps what it had. */
  lemma {:induction false} FillUnlisted(codes: map<string, int>, es: seq<(string, int)>, symbol: string)
    requires !Listed(es, symbol)
    ensures symbol in Fill(codes, es) <==> symbol in codes
    ensures symbol in codes ==> Fill(codes, es)[symbol] == codes[symbol]
  {
    if es != [] {
      var init := es[..|es| - 1];
      assert es[|es| - 1].0 != symbol;
      assert !Listed(init, symbol) by {
        forall i | 0 <= i < |init|
          ensures init[i].0 != symbol
        {
          assert init[i] == es[i];
        }
      }
      FillUnlisted(codes, init, symbol);
    }
  }

  /** A listed symbol has a last entry. */
  lemma {:induction false} LastExists(es: seq<(string, int)>, symbol: string) returns (i: int)
    requires Listed(es, symbol)
    ensures LastFor(es, i, symbol)
  {
    var init := es[..|es| - 1];
    if es[|es| - 1].0 == symbol {
      i := |es| - 1;
    } else {
      var k :| 0 <= k < |es| && es[k].0 == symbol;
      assert init[k].0 == symbol;
      i := LastExists(init, symbol);
    }
  }

  /** What a lookup in the filled table gives: the code of the last entry for the
      symbol, or the old value when no entry is for it. */
  lemma FillLookup(codes: map<string, int>, es: seq<(string, int)>, symbol: string)
    ensures symbol in Fill(codes, es) <==> symbol in codes || Listed(es, symbol)
    ensures forall i :: LastFor(es, i, symbol) ==> Fill(codes, es)[symbol] == es[i].1
    ensures !Listed(es, symbol) && symbol in codes ==> Fill(codes, es)[symbol] == codes[symbol]
  {
    FillKeys(codes, es, symbol);
    if Listed(es, symbol) {
      var k := LastExists(es, symbol);
      FillLastWins(codes, es, k, symbol);
      assert forall i :: LastFor(es, i, symbol) ==> i == k;
    } else {
      FillUnlisted(codes, es, symbol);
    }
  }

  /** One more entry is one more update. */
  lemma FillSnoc(codes: map<string, int>, es: seq<(string, int)>, e: (string, int))
    ensures Fill(codes, es + [e]) == Fill(codes, es)[e.0 := e.1]
  {
    assert (es + [e])[..|es|] == es;
  }

  /** Reading one more line keeps the table the fold of the lines read. */
  lemma ReadLine(codes: map<string, int>, lines: seq<string>, line: string)
    requires CikLines(lines) && CikLine(line) && codes == Fill(map[], Entries(lines))
    ensures CikLines(lines + [line])
    ensures codes[ParseCikCode(line).0 := ParseCikCode(line).1] == Fill(map[], Entries(lines + [line]))
  {
    EntriesSnoc(lines, line);
    FillSnoc(map[], Entries(lines), ParseCikCode(line));
  }

  /** `CikCodeMap`: the endpoint the table is read from and the table itself.
      `lines` records, for the proofs only, every line `Build` has read. */
  class CikCodeMap {
    var urlEndpoint: string
    var codes: map<string, int>
    ghost var lines: seq<string>

    /** The table is the fold of every line read so far into an empty map. */
    ghost predicate Valid()
      reads this
    {
      CikLines(lines) && codes == Fill(map[], Entries(lines))
    }

    /** `NewCikCodeMap`: the SEC endpoint and an empty table. */
    constructor ()
      ensures Valid()
      ensures urlEndpoint == CikUrl && codes == map[] && lines == []
    {
      urlEndpoint := CikUrl;
      codes := map[];
      lines := [];
    }

    /** The body of the read loop of `Build`: `parsecikcode` and the store into
        `codes`. */
    method Store(line: string)
      requires Valid() && CikLine(line)
      modifies this
      ensures Valid()
      ensures urlEndpoint == old(urlEndpoint)
      ensures lines == old(lines) + [line]
      ensures codes == old(codes)[ParseCikCode(line).0 := ParseCikCode(line).1]
    {
      var p := ParseCikCode(line);
      ReadLine(codes, lines, line);
      codes := codes[p.0 := p.1];
      lines := lines + [line];
    }

    /** The read loop of `Build`, on the lines it reads: each line overwrites the
        code of its symbol. */
    method Build(input: seq<string>)
      requires Valid() && CikLines(input)
      modifies this
      ensures Valid()
      ensures urlEndpoint == old(urlEndpoint)
      ensures lines == old(lines) + input
      ensures codes == Fill(old(codes), Entries(input))
    {
      ghost var es, start := Entries(input), lines;
      var i := 0;
      while i < |input|
        invariant 0 <= i <= |input|
        invariant Valid() && urlEndpoint == old(urlEndpoint)
        invariant lines == start + input[..i]
        invariant codes == Fill(old(codes), es[..i])
      {
        FillSnoc(old(codes), es[..i], es[i]);
        TakeSnoc(es, i);
        TakeSnoc(input, i);
        AppendAssoc(start, input[..i], [input[i]]);
        Store(input[i]);
        i := i + 1;
      }
      assert es[..|input|] == es;
      assert input[..|input|] == input;
    }

    /** `Find`: the code of the last line read for the symbol, or Go's zero value
        0 when no line was for it. */
    function Find(symbol: string): (cik: int)
      reads this
      requires Valid()
      ensures !Listed(Entries(lines), symbol) ==> cik == 0
      ensures forall i :: LastFor(Entries(lines), i, symbol) ==> cik == ParseCikCode(lines[i]).1
    {
      FillLookup(map[], Entries(lines), symbol);
      if symbol in codes then codes[symbol] else 0
    }
  }
}
