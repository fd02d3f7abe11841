/** The per-page file naming policy, `generateFileName`
    (src/services/pdfService.ts:39-89): strip the source name's extension,
    zero-pad the page number, choose a base and whether to number it by
    strategy, join base and number with `_`, and replace characters that
    are not allowed in file names. */
module FileNames {
  import opened JsText
  import opened Types

  // ---------------------------------------------------------------------
  // Sanitising: `replace(/[/\\?%*:|"<>]/g, '-')`
  // ---------------------------------------------------------------------

  predicate IsForbidden(c: char) {
    c == '/' || c == '\\' || c == '?' || c == '%' || c == '*'
    || c == ':' || c == '|' || c == '"' || c == '<' || c == '>'
  }

  predicate NoForbidden(s: string) {
    forall i :: 0 <= i < |s| ==> !IsForbidden(s[i])
  }

  /** Every forbidden character becomes `-`; every other character stays
      where it was. */
  function Sanitize(s: string): (r: string)
    ensures |r| == |s| && NoForbidden(r)
    ensures forall i :: 0 <= i < |s| && IsForbidden(s[i]) ==> r[i] == '-'
    ensures forall i :: 0 <= i < |s| && !IsForbidden(s[i]) ==> r[i] == s[i]
  {
    if s == [] then [] else [if IsForbidden(s[0]) then '-' else s[0]] + Sanitize(s[1..])
  }

  /** Sanitising works character by character, so it distributes over
      concatenation. */
  lemma {:induction false} SanitizeConcat(a: string, b: string)
    ensures Sanitize(a + b) == Sanitize(a) + Sanitize(b)
  {
    var l, r := Sanitize(a + b), Sanitize(a) + Sanitize(b);
    assert forall i :: 0 <= i < |l| ==> l[i] == r[i] by {
      forall i | 0 <= i < |l| ensures l[i] == r[i] {
        if i < |a| { assert (a + b)[i] == a[i]; } else { assert (a + b)[i] == b[i - |a|]; }
      }
    }
  }

  /** A name without forbidden characters is left as it is; in particular
      sanitising twice is the same as sanitising once. */
  lemma {:induction false} SanitizeKeepsClean(s: string)
    requires NoForbidden(s)
    ensures Sanitize(s) == s
  {
  }

  // ---------------------------------------------------------------------
  // Extension stripping: `sourceName.replace(/\.[^/.]+$/, "")`
  // ---------------------------------------------------------------------

  /** A character the pattern `[^/.]` accepts. */
  predicate IsExtChar(c: char) {
    c != '/' && c != '.'
  }

  /** The length of the longest suffix of `s` made of extension characters. */
  function ExtTailLength(s: string): (k: nat)
    ensures k <= |s|
    ensures forall q :: |s| - k <= q < |s| ==> IsExtChar(s[q])
    ensures k < |s| ==> !IsExtChar(s[|s| - k - 1])
  {
    if s == [] || !IsExtChar(s[|s| - 1]) then 0 else 1 + ExtTailLength(s[..|s| - 1])
  }

  /** The pattern `\.[^/.]+$` matches at position `p`: a dot followed by one
      or more characters, none of them `.` or `/`, up to the end. */
  predicate ExtensionAt(s: string, p: int) {
    0 <= p < |s| - 1 && s[p] == '.' && forall q :: p < q < |s| ==> IsExtChar(s[q])
  }

  /** `sourceName.replace(/\.[^/.]+$/, "")`. */
  function CleanSource(sourceName: string): string {
    var k := ExtTailLength(sourceName);
    if 0 < k < |sourceName| && sourceName[|sourceName| - k - 1] == '.' then
      sourceName[..|sourceName| - k - 1]
    else
      sourceName
  }

  /** The clean name is a prefix of the name: the whole name, or the name
      cut just before a match of the pattern. */
  lemma {:induction false} CleanSourcePrefix(s: string)
    ensures var clean := CleanSource(s);
            && |clean| <= |s| && clean == s[..|clean|]
            && (|clean| < |s| ==> ExtensionAt(s, |clean|))
  {
    var k := ExtTailLength(s);
    if 0 < k < |s| && s[|s| - k - 1] == '.' {
      assert |CleanSource(s)| == |s| - k - 1;
    }
  }

  /** Where the pattern matches, the name is cut just before the dot. */
  lemma {:induction false} CleanSourceStrips(s: string, p: int)
    requires ExtensionAt(s, p)
    ensures CleanSource(s) == s[..p]
  {
    var k := ExtTailLength(s);
    assert !IsExtChar(s[p]);
    assert k == |s| - p - 1;
  }

  /** Where the pattern matches nowhere, the name is kept whole. */
  lemma {:induction false} CleanSourceKeeps(s: string)
    requires forall p :: !ExtensionAt(s, p)
    ensures CleanSource(s) == s
  {
    var k := ExtTailLength(s);
    assert !ExtensionAt(s, |s| - k - 1);
  }

  /** The pattern matches in at most one place: only the last dot can be
      followed by extension characters alone. */
  lemma {:induction false} ExtensionUnique(s: string, p: int, p': int)
    requires ExtensionAt(s, p) && ExtensionAt(s, p')
    ensures p == p'
  {
    assert !IsExtChar(s[p']) && !IsExtChar(s[p]);
  }

  // ---------------------------------------------------------------------
  // The page number: `(startNumber + index).toString().padStart(padding, '0')`
  // ---------------------------------------------------------------------

  /** The page number is never shorter than `padding` and never empty. */
  function PageNumber(index: nat, config: NamingConfig): (num: string)
    ensures |num| >= config.padding && |num| >= 1
  {
    PadStart(IntToString(config.startNumber + index), config.padding, '0')
  }

  /** For a non-negative number the page number is its decimal numeral,
      left-padded with zeros to `padding` digits and never truncated, and it
      reads back as `startNumber + index`. */
  lemma {:induction false} PageNumberValue(index: nat, config: NamingConfig)
    requires config.startNumber + index >= 0
    ensures var d := Decimal(config.startNumber + index);
            var num := PageNumber(index, config);
            && |num| == Max(config.padding, |d|)
            && num[|num| - |d|..] == d
            && (forall i :: 0 <= i < |num| - |d| ==> num[i] == '0')
            && AllDigits(num) && DigitsValue(num) == config.startNumber + index
  {
    PageNumberIsPadded(index, config);
    PaddedDecimal(config.startNumber + index, config.padding);
  }

  lemma {:induction false} PageNumberIsPadded(index: nat, config: NamingConfig)
    requires config.startNumber + index >= 0
    ensures PageNumber(index, config) == PadStart(Decimal(config.startNumber + index), config.padding, '0')
  {
  }

  lemma {:induction false} PaddedDecimal(n: nat, width: int)
    ensures var d := Decimal(n);
            var r := PadStart(d, width, '0');
            && |r| == Max(width, |d|)
            && r[|r| - |d|..] == d
            && (forall i :: 0 <= i < |r| - |d| ==> r[i] == '0')
            && AllDigits(r) && DigitsValue(r) == n
  {
    DecimalRoundTrip(n);
    PaddedNumeral(Decimal(n), width);
  }

  /** The number never holds a forbidden character (a digit, a minus sign
      or a padding zero), so sanitising leaves it intact. */
  lemma {:induction false} PageNumberClean(index: nat, config: NamingConfig)
    ensures NoForbidden(PageNumber(index, config))
  {
    var numeral := IntToString(config.startNumber + index);
    NumeralClean(config.startNumber + index);
    PaddedClean(numeral, config.padding);
    assert PageNumber(index, config) == PadStart(numeral, config.padding, '0');
  }

  lemma {:induction false} NumeralClean(n: int)
    ensures NoForbidden(IntToString(n))
  {
    var s := IntToString(n);
    if n < 0 {
      forall i | 1 <= i < |s|
        ensures IsDigit(s[i])
      {
        assert s[i] == s[1..][i - 1];
      }
    }
  }

  lemma {:induction false} PaddedClean(s: string, width: int)
    requires NoForbidden(s)
    ensures NoForbidden(PadStart(s, width, '0'))
  {
    var r := PadStart(s, width, '0');
    var cut := |r| - |s|;
    forall i | 0 <= i < |r|
      ensures !IsForbidden(r[i])
    {
      if i >= cut {
        assert r[i] == r[cut..][i - cut];
      }
    }
  }

  /** Different pages get different numbers, whatever the sign of the sums. */
  lemma {:induction false} PageNumberInjective(i: nat, j: nat, config: NamingConfig)
    requires i != j
    ensures PageNumber(i, config) != PageNumber(j, config)
  {
    var m, n := config.startNumber + i, config.startNumber + j;
    assert PageNumber(i, config) == PadStart(IntToString(m), config.padding, '0');
    assert PageNumber(j, config) == PadStart(IntToString(n), config.padding, '0');
    PaddedIntInjective(m, n, config.padding);
  }

  /** The number holds only digits and a minus sign, so never the `_` that
      joins it to the base. */
  lemma {:induction false} PageNumberNoUnderscore(index: nat, config: NamingConfig)
    ensures '_' !in PageNumber(index, config)
  {
    var n := config.startNumber + index;
    PaddedIntChars(n, config.padding);
    assert PageNumber(index, config) == PadStart(IntToString(n), config.padding, '0');
  }

  lemma {:induction false} PaddedIntChars(n: int, width: int)
    ensures var r := PadStart(IntToString(n), width, '0');
            forall i :: 0 <= i < |r| ==> IsDigit(r[i]) || r[i] == '-'
  {
    var s := IntToString(n);
    var r := PadStart(s, width, '0');
    var cut := |r| - |s|;
    forall i | 0 <= i < |r|
      ensures IsDigit(r[i]) || r[i] == '-'
    {
      if i >= cut {
        assert r[i] == r[cut..][i - cut] == s[i - cut];
        if n < 0 && i > cut {
          assert s[i - cut] == s[1..][i - cut - 1];
        }
      }
    }
  }

  /** `padStart` with zeros keeps different integers apart. */
  lemma {:induction false} PaddedIntInjective(m: int, n: int, width: int)
    ensures PadStart(IntToString(m), width, '0') == PadStart(IntToString(n), width, '0') ==> m == n
  {
    PaddedIntShape(m, width);
    PaddedIntShape(n, width);
    var r, q := PadStart(IntToString(m), width, '0'), PadStart(IntToString(n), width, '0');
    var km, kn := |r| - |IntToString(m)|, |q| - |IntToString(n)|;
    if m < 0 && n < 0 {
      if km < kn {
        assert q[km] == '0' != r[km];
      } else if kn < km {
        assert r[kn] == '0' != q[kn];
      } else {
        assert r == q ==> r[km + 1..] == q[kn + 1..];
      }
    } else if m < 0 {
      assert km < |q| ==> IsDigit(q[km]) && !IsDigit(r[km]);
    } else if n < 0 {
      assert kn < |r| ==> IsDigit(r[kn]) && !IsDigit(q[kn]);
    }
  }

  /** A non-negative number pads to digits alone; a negative one to zeros,
      then `-`, then the digits of its magnitude. */
  lemma {:induction false} PaddedIntShape(n: int, width: int)
    ensures var s := IntToString(n);
            var r := PadStart(s, width, '0');
            var k := |r| - |s|;
            && (n >= 0 ==> AllDigits(r) && DigitsValue(r) == n)
            && (n < 0 ==> k < |r| && r[k] == '-' && (forall i :: 0 <= i < k ==> r[i] == '0')
                          && AllDigits(r[k + 1..]) && DigitsValue(r[k + 1..]) == -n)
  {
    var s := IntToString(n);
    var r := PadStart(s, width, '0');
    var k := |r| - |s|;
    IntToStringReadsBack(n);
    if n >= 0 {
      PaddedNumeral(s, width);
    } else {
      assert r[k] == r[k..][0] == s[0];
      assert r[k + 1..] == r[k..][1..] == s[1..];
    }
  }

  // ---------------------------------------------------------------------
  // Strategies
  // ---------------------------------------------------------------------

  /** The fallback base `Page_<index + 1>`. */
  function PageLabel(index: nat): string {
    "Page_" + Decimal(index + 1)
  }

  /** The fallback is `Page_` followed by the numeral of `index + 1`. */
  lemma {:induction false} PageLabelReadsBack(index: nat)
    ensures var fallback := PageLabel(index);
            && |fallback| > 5 && fallback[..5] == "Page_"
            && AllDigits(fallback[5..]) && DigitsValue(fallback[5..]) == index + 1
  {
    DecimalRoundTrip(index + 1);
    assert PageLabel(index)[5..] == Decimal(index + 1);
  }

  /** Keeps the lines that are not blank after trimming, in order. */
  function NonBlank(lines: seq<string>): (kept: seq<string>)
    ensures |kept| <= |lines|
  {
    if lines == [] then []
    else if IsBlank(lines[0]) then NonBlank(lines[1..])
    else [lines[0]] + NonBlank(lines[1..])
  }

  /** `l.trim().length === 0`, stated as "only whitespace"
      (the two agree by TrimEmptyIffBlank). */
  predicate IsBlank(l: string) {
    AllWhitespace(l)
  }

  /** The filter keeps exactly the lines that are not blank. */
  lemma {:induction false} NonBlankKeeps(lines: seq<string>)
    ensures forall l :: l in NonBlank(lines) <==> l in lines && !IsBlank(l)
  {
    if lines != [] {
      NonBlankKeeps(lines[1..]);
      assert lines == [lines[0]] + lines[1..];
    }
  }

  /** The filter on one line followed by others. */
  lemma {:induction false} NonBlankCons(l: string, rest: seq<string>)
    ensures NonBlank([l] + rest) == if IsBlank(l) then NonBlank(rest) else [l] + NonBlank(rest)
  {
    assert ([l] + rest)[1..] == rest;
  }

  /** The filter works line by line: it keeps the order and the repetitions
      of the lines it keeps, so filtering a concatenation is concatenating
      the filtered parts. */
  lemma {:induction false} NonBlankConcat(a: seq<string>, b: seq<string>)
    ensures NonBlank(a + b) == NonBlank(a) + NonBlank(b)
  {
    if a == [] {
      assert a + b == b;
    } else {
      var h, t := a[0], a[1..];
      NonBlankConcat(t, b);
      assert a + b == [h] + (t + b);
      assert a == [h] + t;
      NonBlankCons(h, t + b);
      NonBlankCons(h, t);
      if !IsBlank(h) {
        assert [h] + (NonBlank(t) + NonBlank(b)) == ([h] + NonBlank(t)) + NonBlank(b);
      }
    }
  }

  /** `(manualNames || '').split('\n').filter(l => l.trim().length > 0)`. */
  function ManualLines(manualNames: string): seq<string> {
    NonBlank(Split(manualNames, '\n'))
  }

  /** Each manual line holds no line break and is not blank. */
  lemma {:induction false} ManualLinesClean(manualNames: string)
    ensures var lines := ManualLines(manualNames);
            forall k :: 0 <= k < |lines| ==> !IsBlank(lines[k]) && '\n' !in lines[k]
  {
    var parts := Split(manualNames, '\n');
    NonBlankKeeps(parts);
    var lines := ManualLines(manualNames);
    forall k | 0 <= k < |lines|
      ensures !IsBlank(lines[k]) && '\n' !in lines[k]
    {
      assert lines[k] in NonBlank(parts);
    }
  }

  /** The cell the `csv` strategy reads, when the guard
      `csvColumn && csvData[index] && csvData[index][csvColumn]` holds. */
  predicate HasCsvCell(index: nat, column: string, csvData: seq<CsvRow>) {
    column != "" && index < |csvData| && column in csvData[index] && csvData[index][column] != ""
  }

  datatype Choice = Choice(base: string, numbered: bool)

  /** Whether the configured strategy numbers its names. */
  predicate Numbers(config: NamingConfig) {
    match config.strategy
    case Csv => config.addNumberToCsv
    case Manual => config.addNumberToManual
    case Custom => true
    case Default => true
  }

  /** The `switch (config.strategy)`: the base name and whether it is
      numbered; numbering follows the chosen strategy's flag alone. */
  function ChooseBase(index: nat, config: NamingConfig, cleanSource: string, csvData: seq<CsvRow>): (choice: Choice)
    ensures choice.numbered == Numbers(config)
  {
    match config.strategy
    case Csv =>
      var base := if HasCsvCell(index, config.csvColumn, csvData)
                  then Trim(csvData[index][config.csvColumn])
                  else PageLabel(index);
      Choice(base, config.addNumberToCsv)
    case Manual =>
      var lines := ManualLines(config.manualNames);
      var base := if index < |lines| then Trim(lines[index]) else PageLabel(index);
      Choice(base, config.addNumberToManual)
    case Custom =>
      Choice(if config.customBase != "" then config.customBase else cleanSource, true)
    case Default =>
      Choice(cleanSource, true)
  }

  /** `finalName`: the base alone, or joined to the number by `_` on the
      configured side. */
  function Joined(num: string, choice: Choice, location: NumberLocation): string {
    if !choice.numbered then choice.base
    else if location == Prefix then num + "_" + choice.base
    else choice.base + "_" + num
  }

  /** `generateFileName(index, config, sourceName, csvData)`. */
  function GenerateFileName(index: nat, config: NamingConfig, sourceName: string, csvData: seq<CsvRow>): (name: string)
    ensures NoForbidden(name)
  {
    var num := PageNumber(index, config);
    var choice := ChooseBase(index, config, CleanSource(sourceName), csvData);
    Sanitize(Joined(num, choice, config.numberLocation))
  }

  // ---------------------------------------------------------------------
  // Properties of the policy
  // ---------------------------------------------------------------------

  /** The shape of every name: the sanitised base, joined to the untouched
      page number by `_` on the configured side when the strategy numbers. */
  lemma {:induction false} NameShape(index: nat, config: NamingConfig, sourceName: string, csvData: seq<CsvRow>)
    ensures var base := Sanitize(ChooseBase(index, config, CleanSource(sourceName), csvData).base);
            var num := PageNumber(index, config);
            var name := GenerateFileName(index, config, sourceName, csvData);
            && (!Numbers(config) ==> name == base)
            && (Numbers(config) && config.numberLocation == Prefix ==> name == num + "_" + base)
            && (Numbers(config) && config.numberLocation == Suffix ==> name == base + "_" + num)
  {
    var choice := ChooseBase(index, config, CleanSource(sourceName), csvData);
    var num := PageNumber(index, config);
    PageNumberClean(index, config);
    SanitizeAroundNumber(num, choice.base);
  }

  /** A clean number joined to a base by `_` survives sanitising; only the
      base is rewritten. */
  lemma {:induction false} SanitizeAroundNumber(num: string, base: string)
    requires NoForbidden(num)
    ensures Sanitize(num + "_" + base) == num + "_" + Sanitize(base)
    ensures Sanitize(base + "_" + num) == Sanitize(base) + "_" + num
  {
    SanitizeKeepsClean(num);
    SanitizeKeepsClean("_");
    SanitizeConcat(num + "_", base);
    SanitizeConcat(num, "_");
    SanitizeConcat(base + "_", num);
    SanitizeConcat(base, "_");
  }

  /** With a non-negative number the numbered name ends (suffix) or starts
      (prefix) with the padded numeral of `startNumber + index`. */
  lemma {:induction false} NumberReadsBack(index: nat, config: NamingConfig, sourceName: string, csvData: seq<CsvRow>)
    requires Numbers(config) && config.startNumber + index >= 0
    ensures var name := GenerateFileName(index, config, sourceName, csvData);
            var width := Max(config.padding, |Decimal(config.startNumber + index)|);
            && |name| > width
            && (config.numberLocation == Suffix ==>
                  name[|name| - width - 1] == '_' && AllDigits(name[|name| - width..])
                  && DigitsValue(name[|name| - width..]) == config.startNumber + index)
            && (config.numberLocation == Prefix ==>
                  name[width] == '_' && AllDigits(name[..width])
                  && DigitsValue(name[..width]) == config.startNumber + index)
  {
    NameShape(index, config, sourceName, csvData);
    PageNumberValue(index, config);
    var num := PageNumber(index, config);
    var base := Sanitize(ChooseBase(index, config, CleanSource(sourceName), csvData).base);
    if config.numberLocation == Suffix {
      NumberAfter(base, num);
    } else {
      NumberBefore(num, base);
    }
  }

  lemma {:induction false} NumberAfter(base: string, num: string)
    ensures var name := base + "_" + num;
            name[|name| - |num| - 1] == '_' && name[|name| - |num|..] == num
  {
  }

  lemma {:induction false} NumberBefore(num: string, base: string)
    ensures var name := num + "_" + base;
            name[|num|] == '_' && name[..|num|] == num
  {
  }

  /** Two strings without `_`, each followed by `_` and any text, are told
      apart by the first `_`: the parts before it are recovered exactly. */
  lemma {:induction false} SplitAtFirstUnderscore(x: string, a: string, y: string, b: string)
    requires '_' !in x && '_' !in y
    ensures x + "_" + a == y + "_" + b ==> x == y
  {
    FirstUnderscore(x, a);
    FirstUnderscore(y, b);
  }

  lemma {:induction false} FirstUnderscore(x: string, a: string)
    requires '_' !in x
    ensures var s := x + "_" + a;
            && s[|x|] == '_' && s[..|x|] == x
            && forall i :: 0 <= i < |x| ==> s[i] != '_'
  {
    var s := x + "_" + a;
    forall i | 0 <= i < |x|
      ensures s[i] != '_'
    {
      assert s[i] == x[i];
    }
  }

  /** Mirror image of SplitAtFirstUnderscore: the parts after the last `_`. */
  lemma {:induction false} SplitAtLastUnderscore(a: string, x: string, b: string, y: string)
    requires '_' !in x && '_' !in y
    ensures a + "_" + x == b + "_" + y ==> x == y
  {
    LastUnderscore(a, x);
    LastUnderscore(b, y);
  }

  lemma {:induction false} LastUnderscore(a: string, x: string)
    requires '_' !in x
    ensures var s := a + "_" + x;
            && s[|s| - |x| - 1] == '_' && s[|s| - |x|..] == x
            && forall i :: |s| - |x| <= i < |s| ==> s[i] != '_'
  {
    var s := a + "_" + x;
    forall i | |s| - |x| <= i < |s|
      ensures s[i] != '_'
    {
      assert s[i] == x[i - (|s| - |x|)];
    }
  }

  /** Whenever names are numbered, two pages never get the same name,
      whatever the bases are and whatever the sign of the numbers. */
  lemma {:induction false} NumberedNamesDistinct(i: nat, j: nat, config: NamingConfig, sourceName: string, csvData: seq<CsvRow>)
    requires Numbers(config) && i != j
    ensures GenerateFileName(i, config, sourceName, csvData) != GenerateFileName(j, config, sourceName, csvData)
  {
    NameShape(i, config, sourceName, csvData);
    NameShape(j, config, sourceName, csvData);
    var clean := CleanSource(sourceName);
    var bi := Sanitize(ChooseBase(i, config, clean, csvData).base);
    var bj := Sanitize(ChooseBase(j, config, clean, csvData).base);
    var ni, nj := PageNumber(i, config), PageNumber(j, config);
    PageNumberInjective(i, j, config);
    PageNumberNoUnderscore(i, config);
    PageNumberNoUnderscore(j, config);
    SplitAtFirstUnderscore(ni, bi, nj, bj);
    SplitAtLastUnderscore(bi, ni, bj, nj);
  }

  /** The `default` strategy always numbers the extension-less source name. */
  lemma {:induction false} DefaultStrategy(index: nat, config: NamingConfig, sourceName: string, csvData: seq<CsvRow>)
    requires config.strategy == Default
    ensures var num := PageNumber(index, config);
            var clean := CleanSource(sourceName);
            GenerateFileName(index, config, sourceName, csvData)
              == if config.numberLocation == Prefix then Sanitize(num + "_" + clean)
                 else Sanitize(clean + "_" + num)
  {
  }

  /** The `custom` strategy numbers `customBase`, or the extension-less
      source name when `customBase` is empty. */
  lemma {:induction false} CustomStrategy(index: nat, config: NamingConfig, sourceName: string, csvData: seq<CsvRow>)
    requires config.strategy == Custom
    ensures var num := PageNumber(index, config);
            var base := if config.customBase != "" then config.customBase else CleanSource(sourceName);
            GenerateFileName(index, config, sourceName, csvData)
              == if config.numberLocation == Prefix then Sanitize(num + "_" + base)
                 else Sanitize(base + "_" + num)
  {
  }

  /** The `csv` strategy uses the trimmed cell of row `index` when there is
      a non-empty one, otherwise `Page_<index + 1>`; only `addNumberToCsv`
      decides numbering. */
  lemma {:induction false} CsvStrategy(index: nat, config: NamingConfig, sourceName: string, csvData: seq<CsvRow>)
    requires config.strategy == Csv
    ensures var choice := ChooseBase(index, config, CleanSource(sourceName), csvData);
            && choice.numbered == config.addNumberToCsv
            && (HasCsvCell(index, config.csvColumn, csvData) ==>
                  choice.base == Trim(csvData[index][config.csvColumn]))
            && (!HasCsvCell(index, config.csvColumn, csvData) ==> choice.base == PageLabel(index))
  {
  }

  /** The `manual` strategy uses the trimmed `index`-th non-blank line
      (never empty), otherwise `Page_<index + 1>`; only `addNumberToManual`
      decides numbering. */
  lemma {:induction false} ManualStrategy(index: nat, config: NamingConfig, sourceName: string, csvData: seq<CsvRow>)
    requires config.strategy == Manual
    ensures var lines := ManualLines(config.manualNames);
            var choice := ChooseBase(index, config, CleanSource(sourceName), csvData);
            && choice.numbered == config.addNumberToManual
            && (index < |lines| ==> choice.base == Trim(lines[index]) && choice.base != "")
            && (index >= |lines| ==> choice.base == PageLabel(index))
  {
    var lines := ManualLines(config.manualNames);
    if index < |lines| {
      NonBlankKeeps(Split(config.manualNames, '\n'));
      assert lines[index] in lines;
    }
  }

  /** The fields a strategy looks at; the name depends on no other field. */
  predicate SameNamingFields(c: NamingConfig, d: NamingConfig) {
    && c.strategy == d.strategy && c.startNumber == d.startNumber
    && c.padding == d.padding && c.numberLocation == d.numberLocation
    && (c.strategy == Custom ==> c.customBase == d.customBase)
    && (c.strategy == Csv ==> c.csvColumn == d.csvColumn && c.addNumberToCsv == d.addNumberToCsv)
    && (c.strategy == Manual ==> c.manualNames == d.manualNames && c.addNumberToManual == d.addNumberToManual)
  }

  lemma {:induction false} NameIgnoresOtherFields(index: nat, c: NamingConfig, d: NamingConfig, sourceName: string, csvData: seq<CsvRow>)
    requires SameNamingFields(c, d)
    ensures GenerateFileName(index, c, sourceName, csvData) == GenerateFileName(index, d, sourceName, csvData)
  {
    var clean := CleanSource(sourceName);
    assert PageNumber(index, c) == PageNumber(index, d);
    ChoiceIgnoresOtherFields(index, c, d, clean, csvData);
    assert Joined(PageNumber(index, c), ChooseBase(index, c, clean, csvData), c.numberLocation)
        == Joined(PageNumber(index, d), ChooseBase(index, d, clean, csvData), d.numberLocation);
  }

  lemma {:induction false} ChoiceIgnoresOtherFields(index: nat, c: NamingConfig, d: NamingConfig, clean: string, csvData: seq<CsvRow>)
    requires SameNamingFields(c, d)
    ensures ChooseBase(index, c, clean, csvData) == ChooseBase(index, d, clean, csvData)
  {
    match c.strategy
    case Csv => assert c.csvColumn == d.csvColumn;
    case Manual => assert c.manualNames == d.manualNames;
    case Custom => assert c.customBase == d.customBase;
    case Default =>
  }
}
