/** Pools, their comma-separated cache format, and the block-range chunking
    used when scanning factory logs (src/pools.js). */
module Pools {
  import opened Common

  /** `DexVariant`: the DEX generation tag a pool row carries. */
  datatype DexVariant = UniswapV2 | UniswapV3 {
    /** The enum's numeric value as written into the cache. */
    function Code(): nat { if UniswapV2? then 2 else 3 }
  }

  /** A liquidity pool, identified by its address. */
  datatype Pool = Pool(
    address: Address,
    version: DexVariant,
    token0: Address,
    token1: Address,
    decimals0: nat,
    decimals1: nat,
    fee: nat)

  // ---------------------------------------------------------------------
  // `range(start, stop, step)`: block chunks [fromBlock, toBlock]

  /** Splits `[start, stop]` into chunks `[start + i*step, min(start + (i+1)*step, stop)]`:
      there are ceil((stop - start) / step) of them, each chunk starts where
      the previous one ended, and the last one ends at `stop`. */
  method BlockRanges(start: int, stop: int, step: int) returns (ranges: seq<(int, int)>)
    requires step > 0
    ensures |ranges| == LoopCount(start, stop, step)
    ensures forall i :: 0 <= i < |ranges| ==>
      ranges[i] == (start + i * step, Min(start + i * step + step, stop))
    ensures forall i :: 0 < i < |ranges| ==> ranges[i - 1].1 == ranges[i].0
    ensures |ranges| > 0 ==> ranges[0].0 == start && ranges[|ranges| - 1].1 == stop
  {
    var loopCnt := LoopCount(start, stop, step);
    ranges := [];
    for i := 0 to loopCnt
      invariant |ranges| == i
      invariant forall k :: 0 <= k < i ==>
        ranges[k] == (start + k * step, Min(start + k * step + step, stop))
    {
      var fromBlock := start + i * step;
      var toBlock := Min(fromBlock + step, stop);
      ranges := ranges + [(fromBlock, toBlock)];
    }
    forall i | 0 < i < |ranges|
      ensures ranges[i - 1].1 == ranges[i].0
    {
      MulMono(i, loopCnt - 1, step);
      assert (i - 1) * step + step == i * step;
    }
  }

  // ---------------------------------------------------------------------
  // Decimal text of numbers: `String(n)` and `parseInt(s)`

  predicate IsDigit(c: char) { '0' <= c <= '9' }

  predicate AllDigits(s: string) { forall i :: 0 <= i < |s| ==> IsDigit(s[i]) }

  function DigitChar(d: nat): (c: char)
    requires d < 10
    ensures IsDigit(c)
  {
    ('0' as int + d) as char
  }

  /** The decimal representation a number gets when joined into a string. */
  function NatToString(n: nat): (s: string)
    ensures |s| >= 1 && AllDigits(s)
  {
    if n < 10 then [DigitChar(n)] else NatToString(n / 10) + [DigitChar(n % 10)]
  }

  /** A digit in base 10, or in base 16 (either case of a-f). */
  predicate IsRadixDigit(c: char, radix: nat)
  {
    IsDigit(c) || (radix == 16 && ('a' <= c <= 'f' || 'A' <= c <= 'F'))
  }

  predicate AllRadixDigits(s: string, radix: nat)
  {
    forall i :: 0 <= i < |s| ==> IsRadixDigit(s[i], radix)
  }

  function RadixDigitValue(c: char, radix: nat): (v: nat)
    requires IsRadixDigit(c, radix)
    ensures v < (if radix == 16 then 16 else 10)
  {
    if IsDigit(c) then c as int - '0' as int
    else if 'a' <= c <= 'f' then c as int - 'a' as int + 10
    else c as int - 'A' as int + 10
  }

  /** The value of a string of digits in base `radix`. */
  function DigitsValue(s: string, radix: nat): nat
    requires AllRadixDigits(s, radix)
  {
    if |s| == 0 then 0 else DigitsValue(s[..|s| - 1], radix) * radix + RadixDigitValue(s[|s| - 1], radix)
  }

  /** The longest prefix of digits in base `radix`. */
  function LeadingDigits(s: string, radix: nat): (p: string)
    ensures AllRadixDigits(p, radix) && |p| <= |s|
  {
    if |s| > 0 && IsRadixDigit(s[0], radix) then [s[0]] + LeadingDigits(s[1..], radix) else []
  }

  /** The white space and line terminators `parseInt` skips before the
      number (section 12.2 and 12.3 of ECMA-262). */
  predicate IsJsSpace(c: char)
  {
    var n := c as int;
    || (9 <= n <= 13) || n == 32 || n == 0xA0 || n == 0x1680 || (0x2000 <= n <= 0x200A)
    || n == 0x2028 || n == 0x2029 || n == 0x202F || n == 0x205F || n == 0x3000 || n == 0xFEFF
  }

  /** `String.prototype.trimStart`. */
  function TrimStart(s: string): (t: string)
    ensures |t| <= |s| && (|t| > 0 ==> !IsJsSpace(t[0]))
    ensures |s| > 0 && !IsJsSpace(s[0]) ==> t == s
  {
    if |s| > 0 && IsJsSpace(s[0]) then TrimStart(s[1..]) else s
  }

  /** `parseInt(s)` with no radix (section 19.2.5 of ECMA-262): leading white
      space is skipped, a `+` or `-` sign is read, a `0x` or `0X` prefix
      selects base 16, and then the longest run of digits is read. `None`
      stands for `NaN` (no digit where the number should start). A string
      of decimal digits reads as its decimal value. */
  function ParseInt(s: string): (r: Option<int>)
    ensures |s| > 0 && AllDigits(s) ==> r == Some(DigitsValue(s, 10))
  {
    var t := TrimStart(s);
    var negative := |t| > 0 && t[0] == '-';
    var u := if |t| > 0 && (t[0] == '-' || t[0] == '+') then t[1..] else t;
    var hex := |u| >= 2 && u[0] == '0' && (u[1] == 'x' || u[1] == 'X');
    var radix := if hex then 16 else 10;
    var ds := LeadingDigits(if hex then u[2..] else u, radix);
    if ds == [] then None
    else
      var v: int := DigitsValue(ds, radix);
      if |s| > 0 && AllDigits(s) then
        LeadingDigitsOfDigits(s);
        Some(if negative then -v else v)
      else Some(if negative then -v else v)
  }

  lemma {:induction false} LeadingDigitsOfDigits(s: string)
    requires AllDigits(s)
    ensures LeadingDigits(s, 10) == s
  {
    if |s| > 0 {
      LeadingDigitsOfDigits(s[1..]);
    }
  }

  lemma {:induction false} DigitsValueOfNatToString(n: nat)
    ensures DigitsValue(NatToString(n), 10) == n
  {
    if n >= 10 {
      DigitsValueOfNatToString(n / 10);
      var s := NatToString(n);
      assert s[..|s| - 1] == NatToString(n / 10);
    }
  }

  /** `parseInt(String(n)) == n` for every natural number. */
  lemma ParseIntOfNatToString(n: nat)
    ensures ParseInt(NatToString(n)) == Some(n)
  {
    DigitsValueOfNatToString(n);
  }

  /** Leading white space is skipped. */
  lemma ParseIntSkipsSpace()
    ensures ParseInt(" 18") == Some(18)
  {
    var s := " 18";
    assert s[1..] == "18";
    assert TrimStart(s) == "18";
    assert LeadingDigits("18", 10) == "18";
    assert DigitsValue("18", 10) == 18 by {
      assert "18"[..1] == "1";
    }
  }

  /** A minus sign negates the number. */
  lemma ParseIntReadsSign()
    ensures ParseInt("-1") == Some(-1)
  {
    var s := "-1";
    assert TrimStart(s) == s;
    assert s[1..] == "1";
    assert LeadingDigits("1", 10) == "1";
    assert DigitsValue("1", 10) == 1;
  }

  /** A `0x` prefix selects base 16. */
  lemma ParseIntReadsHex()
    ensures ParseInt("0x12") == Some(18)
  {
    var s := "0x12";
    assert !AllDigits(s) by {
      assert !IsDigit(s[1]);
    }
    assert TrimStart(s) == s;
    assert s[2..] == "12";
    assert "12"[1..] == "2" && "2"[1..] == "";
    assert LeadingDigits("12", 16) == "12";
    assert DigitsValue("12", 16) == 18 by {
      assert "12"[..1] == "1";
    }
  }

  /** Reading stops at the first character that is not a digit. */
  lemma ParseIntStopsAtNonDigit()
    ensures ParseInt("12abc") == Some(12)
  {
    var s := "12abc";
    assert !AllDigits(s) by {
      assert !IsDigit(s[2]);
    }
    assert TrimStart(s) == s;
    assert s[1..] == "2abc" && s[2..] == "abc";
    assert LeadingDigits(s, 10) == "12";
    assert DigitsValue("12", 10) == 12 by {
      assert "12"[..1] == "1";
    }
  }

  /** No digit where the number starts gives `NaN`. */
  lemma ParseIntNaN()
    ensures ParseInt("abc") == None && ParseInt("") == None && ParseInt("-") == None
  {
    assert TrimStart("abc") == "abc";
    assert TrimStart("-") == "-";
    assert "-"[1..] == "";
  }

  // ---------------------------------------------------------------------
  // `String.prototype.split` and `Array.prototype.join` on one character

  /** `s.split(sep)`: every occurrence of `sep` ends a part, so the result is
      never empty and a trailing separator leaves a trailing "". */
  function Split(s: string, sep: char): (parts: seq<string>)
    ensures |parts| >= 1
  {
    if |s| == 0 then [""]
    else if s[0] == sep then [""] + Split(s[1..], sep)
    else
      var rest := Split(s[1..], sep);
      [[s[0]] + rest[0]] + rest[1..]
  }

  /** `parts.join(sep)`. */
  function Join(parts: seq<string>, sep: char): string
  {
    if |parts| == 0 then ""
    else if |parts| == 1 then parts[0]
    else parts[0] + [sep] + Join(parts[1..], sep)
  }

  predicate NoSepIn(parts: seq<string>, sep: char)
  {
    forall i :: 0 <= i < |parts| ==> sep !in parts[i]
  }

  lemma {:induction false} SplitWithoutSep(p: string, sep: char)
    requires sep !in p
    ensures Split(p, sep) == [p]
  {
    if |p| > 0 {
      SplitWithoutSep(p[1..], sep);
      assert [p[0]] + p[1..] == p;
    }
  }

  lemma {:induction false} SplitAfterPart(p: string, rest: string, sep: char)
    requires sep !in p
    ensures Split(p + [sep] + rest, sep) == [p] + Split(rest, sep)
  {
    var s := p + [sep] + rest;
    if |p| == 0 {
      assert s[1..] == rest;
    } else {
      assert s[1..] == p[1..] + [sep] + rest;
      SplitAfterPart(p[1..], rest, sep);
      assert [p[0]] + p[1..] == p;
    }
  }

  /** Splitting a join gives back the parts when no part holds the separator. */
  lemma {:induction false} SplitJoin(parts: seq<string>, sep: char)
    requires |parts| >= 1 && NoSepIn(parts, sep)
    ensures Split(Join(parts, sep), sep) == parts
  {
    if |parts| == 1 {
      SplitWithoutSep(parts[0], sep);
    } else {
      SplitJoin(parts[1..], sep);
      SplitAfterPart(parts[0], Join(parts[1..], sep), sep);
      assert [parts[0]] + parts[1..] == parts;
    }
  }

  lemma {:induction false} CharNotInJoin(parts: seq<string>, sep: char, c: char)
    requires c != sep && NoSepIn(parts, c)
    ensures c !in Join(parts, sep)
  {
    if |parts| > 1 {
      CharNotInJoin(parts[1..], sep, c);
    }
  }

  // ---------------------------------------------------------------------
  // The cache row format

  /** `Pool.cacheRow()`: address, version, token0, token1, decimals0,
      decimals1, fee, in that order. */
  function CacheRow(p: Pool): (row: seq<string>)
    ensures |row| == 7 && row[0] == p.address && row[2] == p.token0 && row[3] == p.token1
    ensures row[1] == (if p.version == UniswapV2 then "2" else "3")
    ensures AllDigits(row[1]) && AllDigits(row[4]) && AllDigits(row[5]) && AllDigits(row[6])
  {
    assert NatToString(2) == "2" && NatToString(3) == "3";
    [p.address, NatToString(p.version.Code()), p.token0, p.token1,
     NatToString(p.decimals0), NatToString(p.decimals1), NatToString(p.fee)]
  }

  /** The header line of the cache file (the comma-joined column titles
      address, version, token0, token1, decimals0, decimals1, fee), without
      its newline. */
  const HeaderLine: string := "address" + [','] + HeaderTitles

  /** The titles after "address", comma-separated. */
  const HeaderTitles: string :=
    "version" + [','] + "token0" + [','] + "token1" + [','] + "decimals0" + [','] + "decimals1" + [','] + "fee"

  /** One serialised pool: its comma-joined row and a newline. */
  function RowLine(p: Pool): string { Join(CacheRow(p), ',') + "\n" }

  function Lines(ps: seq<Pool>): string
  {
    if |ps| == 0 then "" else RowLine(ps[0]) + Lines(ps[1..])
  }

  /** The whole cache file written for `pools`, in iteration order. */
  function CacheText(ps: seq<Pool>): string { HeaderLine + "\n" + Lines(ps) }

  lemma {:induction false} LinesSnoc(ps: seq<Pool>, p: Pool)
    ensures Lines(ps + [p]) == Lines(ps) + RowLine(p)
  {
    if |ps| > 0 {
      assert (ps + [p])[1..] == ps[1..] + [p];
      LinesSnoc(ps[1..], p);
    } else {
      assert ps + [p] == [p];
    }
  }

  /** `cacheSyncedPools`: the header line, then one comma-joined `cacheRow`
      line per pool, each ending in a newline. The pools are given in the
      iteration order of the `pools` object. */
  method CacheSyncedPools(pools: seq<Pool>) returns (data: string)
    ensures data == CacheText(pools)
  {
    data := HeaderLine + "\n";
    for i := 0 to |pools|
      invariant data == HeaderLine + "\n" + Lines(pools[..i])
    {
      var row := RowLine(pools[i]);
      CacheTextStep(pools, i);
      AppendAssoc(HeaderLine + "\n", Lines(pools[..i]), row);
      data := data + row;
    }
    assert pools[..|pools|] == pools;
  }

  lemma AppendAssoc(a: string, b: string, c: string)
    ensures (a + b) + c == a + (b + c)
  {
  }

  /** Writing one more pool appends its line to the text. */
  lemma CacheTextStep(pools: seq<Pool>, i: nat)
    requires i < |pools|
    ensures Lines(pools[..i + 1]) == Lines(pools[..i]) + RowLine(pools[i])
  {
    assert pools[..i + 1] == pools[..i] + [pools[i]];
    LinesSnoc(pools[..i], pools[i]);
  }

  /** How the loader reads one row: `None` for an empty row, the header row
      (first column "address"), and a row the model cannot represent (fewer
      than seven columns, or a numeric column that reads as `NaN` or as a
      negative number). */
  function ParseRow(row: string): (r: Option<Pool>)
    ensures r.Some? ==> row != "" && |Split(row, ',')| >= 7 && r.value.address != "address"
  {
    if row == "" then None
    else
      var cols := Split(row, ',');
      if cols[0] == "address" then None
      else if |cols| < 7 then None
      else
        var version := if cols[1] == "2" then UniswapV2 else UniswapV3;
        match (ParseInt(cols[4]), ParseInt(cols[5]), ParseInt(cols[6]))
        case (Some(d0), Some(d1), Some(fee)) =>
          if d0 >= 0 && d1 >= 0 && fee >= 0 then Some(Pool(cols[0], version, cols[2], cols[3], d0, d1, fee))
          else None
        case _ => None
  }

  /** The pools map after reading `rows` in order: each parsed row is stored
      under its first column, overwriting an earlier row with that address. */
  function ParseRows(rows: seq<string>): (m: map<Address, Pool>)
    ensures forall a :: a in m ==> m[a].address == a
  {
    if |rows| == 0 then map[]
    else
      var m := ParseRows(rows[..|rows| - 1]);
      match ParseRow(rows[|rows| - 1])
      case None => m
      case Some(p) => m[p.address := p]
  }

  /** The row-parsing loop of `loadCachedPools` over the file's text. */
  method LoadCachedPools(content: string) returns (pools: map<Address, Pool>)
    ensures pools == ParseRows(Split(content, '\n'))
  {
    var rows := Split(content, '\n');
    pools := map[];
    for i := 0 to |rows|
      invariant pools == ParseRows(rows[..i])
    {
      ParseRowsStep(rows, i);
      var row := rows[i];
      if row == "" {
        continue;
      }
      var cols := Split(row, ',');
      if cols[0] == "address" {
        continue;
      }
      if |cols| < 7 {
        continue;
      }
      var version := if cols[1] == "2" then UniswapV2 else UniswapV3;
      var d0, d1, fee := ParseInt(cols[4]), ParseInt(cols[5]), ParseInt(cols[6]);
      if d0.None? || d1.None? || fee.None? || d0.value < 0 || d1.value < 0 || fee.value < 0 {
        assert ParseRow(row).None?;
        continue;
      }
      var pool := Pool(cols[0], version, cols[2], cols[3], d0.value, d1.value, fee.value);
      assert ParseRow(row) == Some(pool);
      pools := pools[cols[0] := pool];
    }
    assert rows[..|rows|] == rows;
  }

  /** Reading row `i` stores its pool, if it has one, over the map read so far. */
  lemma ParseRowsStep(rows: seq<string>, i: nat)
    requires i < |rows|
    ensures ParseRow(rows[i]).None? ==> ParseRows(rows[..i + 1]) == ParseRows(rows[..i])
    ensures ParseRow(rows[i]).Some? ==>
      ParseRows(rows[..i + 1]) == ParseRows(rows[..i])[ParseRow(rows[i]).value.address := ParseRow(rows[i]).value]
  {
    assert rows[..i + 1][..i] == rows[..i];
  }

  /** The loader skips empty rows and the header row. */
  lemma HeaderAndEmptyRowsSkipped(row: string)
    requires row == "" || Split(row, ',')[0] == "address"
    ensures ParseRow(row) == None
  {
  }

  /** The version column "2" reads as UniswapV2, anything else as UniswapV3. */
  lemma VersionColumn(row: string)
    requires ParseRow(row).Some?
    ensures ParseRow(row).value.version == if Split(row, ',')[1] == "2" then UniswapV2 else UniswapV3
    ensures ParseRow(row).value.address == Split(row, ',')[0]
  {
  }

  // ---------------------------------------------------------------------
  // Round trip

  /** A pool whose text fields hold no separator and whose address is not
      the header's first title. */
  predicate WellFormed(p: Pool)
  {
    && ',' !in p.address && '\n' !in p.address
    && ',' !in p.token0 && '\n' !in p.token0
    && ',' !in p.token1 && '\n' !in p.token1
    && p.address != "address"
  }

  lemma DigitsHoldNoSeparator(s: string, c: char)
    requires AllDigits(s) && !IsDigit(c)
    ensures c !in s
  {
  }

  /** Reading a serialised row gives back the pool. */
  lemma RowRoundTrip(p: Pool)
    requires WellFormed(p)
    ensures ParseRow(Join(CacheRow(p), ',')) == Some(p)
  {
    var row := CacheRow(p);
    forall i | 0 <= i < |row| ensures ',' !in row[i] {
      if i == 1 || i >= 4 { DigitsHoldNoSeparator(row[i], ','); }
    }
    SplitJoin(row, ',');
    assert Join(row, ',') != "" by {
      assert |Join(row, ',')| >= |row[0]| + 1;
    }
    ParseRowOfColumns(Join(row, ','), p);
  }

  /** A row whose seven columns read back as `p`'s fields parses to `p`. */
  lemma ParseRowOfColumns(row: string, p: Pool)
    requires row != ""
    requires var cols := Split(row, ',');
      && cols == CacheRow(p)
      && cols[0] != "address"
    ensures ParseRow(row) == Some(p)
  {
    var cols := Split(row, ',');
    assert (cols[1] == "2") == (p.version == UniswapV2);
    CacheRowNumbers(p);
  }

  /** The numeric columns of a cache row read back, with `parseInt`, as the
      pool's decimals and fee. */
  lemma CacheRowNumbers(p: Pool)
    ensures ParseInt(CacheRow(p)[4]) == Some(p.decimals0 as int)
    ensures ParseInt(CacheRow(p)[5]) == Some(p.decimals1 as int)
    ensures ParseInt(CacheRow(p)[6]) == Some(p.fee as int)
  {
    ParseIntOfNatToString(p.decimals0);
    ParseIntOfNatToString(p.decimals1);
    ParseIntOfNatToString(p.fee);
  }

  /** The serialised rows, without their newlines. */
  function RowStrings(ps: seq<Pool>): (rs: seq<string>)
    ensures |rs| == |ps|
  {
    seq(|ps|, i requires 0 <= i < |ps| => Join(CacheRow(ps[i]), ','))
  }

  lemma {:induction false} LinesAsJoin(ps: seq<Pool>)
    ensures Lines(ps) == Join(RowStrings(ps) + [""], '\n')
  {
    if |ps| > 0 {
      LinesAsJoin(ps[1..]);
      var rs := RowStrings(ps) + [""];
      assert rs[1..] == RowStrings(ps[1..]) + [""];
    }
  }

  lemma CacheTextAsJoin(ps: seq<Pool>)
    ensures CacheText(ps) == Join([HeaderLine] + RowStrings(ps) + [""], '\n')
  {
    LinesAsJoin(ps);
    var all := [HeaderLine] + RowStrings(ps) + [""];
    assert all[1..] == RowStrings(ps) + [""];
  }

  /** The header row holds no newline and is skipped by the loader. */
  lemma HeaderSkipped()
    ensures ParseRow(HeaderLine) == None
    ensures '\n' !in HeaderLine
  {
    HeaderFirstColumn();
    HeaderOneLine();
  }

  lemma HeaderFirstColumn()
    ensures Split(HeaderLine, ',')[0] == "address"
  {
    SplitAfterPart("address", HeaderTitles, ',');
  }

  lemma HeaderOneLine()
    ensures '\n' !in HeaderLine
  {
    assert '\n' !in "decimals0";
  }

  /** The addresses of a sequence of pools. */
  function AddressesOf(ps: seq<Pool>): set<Address>
  {
    set i | 0 <= i < |ps| :: ps[i].address
  }

  predicate DistinctAddresses(ps: seq<Pool>)
  {
    forall i, j :: 0 <= i < j < |ps| ==> ps[i].address != ps[j].address
  }

  lemma AddressesOfSnoc(ps: seq<Pool>, n: nat)
    requires 0 < n <= |ps|
    ensures AddressesOf(ps[..n]) == AddressesOf(ps[..n - 1]) + {ps[n - 1].address}
  {
    var l, r := AddressesOf(ps[..n]), AddressesOf(ps[..n - 1]) + {ps[n - 1].address};
    forall a | a in l ensures a in r {
      var i :| 0 <= i < n && ps[..n][i].address == a;
      if i < n - 1 { assert ps[..n - 1][i].address == a; }
    }
    forall a | a in r ensures a in l {
      if a == ps[n - 1].address {
        assert ps[..n][n - 1].address == a;
      } else {
        var i :| 0 <= i < n - 1 && ps[..n - 1][i].address == a;
        assert ps[..n][i].address == a;
      }
    }
  }

  /** Parsing one more row stores its pool, if it has one. */
  lemma ParseRowsSnoc(rows: seq<string>, row: string, p: Pool)
    requires ParseRow(row) == Some(p)
    ensures ParseRows(rows + [row]) == ParseRows(rows)[p.address := p]
  {
    var all := rows + [row];
    assert all[..|all| - 1] == rows;
  }

  /** Rows that parse to pools with distinct addresses, after a header that
      parses to nothing, map each address to its own pool. */
  lemma {:induction false} ParseRowsOfParsed(header: string, rows: seq<string>, ps: seq<Pool>, n: nat)
    requires n <= |ps| == |rows|
    requires ParseRow(header) == None
    requires forall i :: 0 <= i < |ps| ==> ParseRow(rows[i]) == Some(ps[i])
    requires DistinctAddresses(ps)
    ensures var m := ParseRows([header] + rows[..n]);
      && m.Keys == AddressesOf(ps[..n])
      && forall i :: 0 <= i < n ==> ps[i].address in m && m[ps[i].address] == ps[i]
  {
    if n == 0 {
      assert [header] + rows[..0] == [header];
      assert [header][..0] == [];
      assert ParseRows([header]) == map[];
      assert AddressesOf(ps[..0]) == {};
    } else {
      ParseRowsOfParsed(header, rows, ps, n - 1);
      var prev := [header] + rows[..n - 1];
      PrefixSnoc([header], rows, n);
      ParseRowsSnoc(prev, rows[n - 1], ps[n - 1]);
      StoreStep(ParseRows(prev), ps, n);
    }
  }

  /** One more element of a prefix, appended at the end. */
  lemma PrefixSnoc<T>(head: seq<T>, s: seq<T>, n: nat)
    requires 0 < n <= |s|
    ensures head + s[..n] == (head + s[..n - 1]) + [s[n - 1]]
  {
    assert s[..n] == s[..n - 1] + [s[n - 1]];
  }

  /** Storing the n-th pool under its own address adds that address to
      the keys and keeps the entries of the earlier pools, whose addresses
      differ. */
  lemma StoreStep(before: map<Address, Pool>, ps: seq<Pool>, n: nat)
    requires 0 < n <= |ps| && DistinctAddresses(ps)
    requires before.Keys == AddressesOf(ps[..n - 1])
    requires forall i :: 0 <= i < n - 1 ==> ps[i].address in before && before[ps[i].address] == ps[i]
    ensures var m := before[ps[n - 1].address := ps[n - 1]];
      && m.Keys == AddressesOf(ps[..n])
      && forall i :: 0 <= i < n ==> ps[i].address in m && m[ps[i].address] == ps[i]
  {
    AddressesOfSnoc(ps, n);
  }

  /** Every row of the cache text has no newline of its own. */
  lemma CacheRowsHoldNoNewline(header: string, ps: seq<Pool>)
    requires '\n' !in header
    requires forall i :: 0 <= i < |ps| ==> WellFormed(ps[i])
    ensures NoSepIn([header] + RowStrings(ps) + [""], '\n')
  {
    var all := [header] + RowStrings(ps) + [""];
    forall i | 0 <= i < |all| ensures '\n' !in all[i] {
      if 1 <= i <= |ps| {
        var row := CacheRow(ps[i - 1]);
        forall k | 0 <= k < |row| ensures '\n' !in row[k] {
          if k == 1 || k >= 4 { DigitsHoldNoSeparator(row[k], '\n'); }
        }
        CharNotInJoin(row, ',', '\n');
      }
    }
  }

  /** Reading back the text `cacheSyncedPools` writes yields every pool
      under its own address and nothing else, provided no text field holds
      "," or a newline, no address is "address", and the addresses are
      distinct (they are the keys of the `pools` object). */
  lemma LoadAfterCache(ps: seq<Pool>)
    requires forall i :: 0 <= i < |ps| ==> WellFormed(ps[i])
    requires DistinctAddresses(ps)
    ensures var m := ParseRows(Split(CacheText(ps), '\n'));
      && m.Keys == AddressesOf(ps)
      && forall i :: 0 <= i < |ps| ==> m[ps[i].address] == ps[i]
  {
    HeaderSkipped();
    CacheTextAsJoin(ps);
    ReadBack(HeaderLine, ps);
  }

  lemma ReadBack(header: string, ps: seq<Pool>)
    requires ParseRow(header) == None && '\n' !in header
    requires forall i :: 0 <= i < |ps| ==> WellFormed(ps[i])
    requires DistinctAddresses(ps)
    ensures var m := ParseRows(Split(Join([header] + RowStrings(ps) + [""], '\n'), '\n'));
      && m.Keys == AddressesOf(ps)
      && forall i :: 0 <= i < |ps| ==> m[ps[i].address] == ps[i]
  {
    var all := [header] + RowStrings(ps) + [""];
    CacheRowsHoldNoNewline(header, ps);
    SplitJoin(all, '\n');
    var rows := RowStrings(ps);
    forall i | 0 <= i < |ps|
      ensures ParseRow(rows[i]) == Some(ps[i])
    {
      RowRoundTrip(ps[i]);
    }
    ParseRowsOfParsed(header, rows, ps, |ps|);
    assert rows[..|ps|] == rows;
    assert ps[..|ps|] == ps;
    assert all[..|all| - 1] == [header] + RowStrings(ps)[..|ps|];
  }
}
