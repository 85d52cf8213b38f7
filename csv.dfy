/** The CSV helpers of src/test/java/ResultsCsvExportTest.java: quoting a
    field, joining integers and component sizes with a separator, counting
    non-null entries, and the component size statistics. JSON arrays of
    integers are sequences of `Option<int>` (`None` for JSON null). */
module CsvExport {
  import opened Common

  // ---------------------------------------------------------------------
  // String.valueOf(int)

  function DigitChar(d: int): char
    requires 0 <= d < 10
  {
    ('0' as int + d) as char
  }

  function DigitValue(c: char): nat {
    if '0' <= c <= '9' then c as int - '0' as int else 0
  }

  /** The decimal digits of `n`, most significant first, no leading zero. */
  function Digits(n: nat): (r: string)
    ensures |r| >= 1 && forall i :: 0 <= i < |r| ==> '0' <= r[i] <= '9'
  {
    if n < 10 then [DigitChar(n)] else Digits(n / 10) + [DigitChar(n % 10)]
  }

  /** `String.valueOf(x)`: a minus sign for a negative value, then the
      digits of its magnitude. */
  function DecimalString(x: int): (r: string)
    ensures |r| >= 1 && forall i :: 0 <= i < |r| ==> r[i] == '-' || '0' <= r[i] <= '9'
  {
    if x < 0 then "-" + Digits(-x) else Digits(x)
  }

  function ParseNat(s: string): nat {
    if s == [] then 0 else ParseNat(s[..|s| - 1]) * 10 + DigitValue(s[|s| - 1])
  }

  /** Reads back a decimal string: an optional minus sign, then digits. */
  function ParseInt(s: string): int {
    if s != [] && s[0] == '-' then -(ParseNat(s[1..]) as int) else ParseNat(s)
  }

  lemma {:induction false} ParseDigits(n: nat)
    ensures ParseNat(Digits(n)) == n
  {
    if n >= 10 {
      ParseDigits(n / 10);
      var d := Digits(n);
      assert d[..|d| - 1] == Digits(n / 10);
    }
  }

  /** Rendering an integer in decimal loses nothing. */
  lemma ParseDecimal(x: int)
    ensures ParseInt(DecimalString(x)) == x
  {
    if x < 0 {
      ParseDigits(-x);
      assert ("-" + Digits(-x))[1..] == Digits(-x);
    } else {
      ParseDigits(x);
    }
  }

  // ---------------------------------------------------------------------
  // joining with a separator, and splitting back

  /** The fields with `sep` between consecutive ones only. */
  function Join(fields: seq<string>, sep: string): string {
    if fields == [] then ""
    else if |fields| == 1 then fields[0]
    else Join(fields[..|fields| - 1], sep) + sep + fields[|fields| - 1]
  }

  /** The pieces of `s` between occurrences of `c`: one more piece than
      there are separators. */
  function Split(s: string, c: char): (r: seq<string>)
    ensures |r| >= 1
  {
    if s == [] then [[]]
    else
      var r := Split(s[..|s| - 1], c);
      if s[|s| - 1] == c then r + [[]]
      else r[..|r| - 1] + [r[|r| - 1] + [s[|s| - 1]]]
  }

  lemma {:induction false} SplitNoSep(b: string, c: char)
    requires c !in b
    ensures Split(b, c) == [b]
  {
    if b != [] {
      SplitNoSep(b[..|b| - 1], c);
      assert b[..|b| - 1] + [b[|b| - 1]] == b;
    }
  }

  lemma {:induction false} SplitAfter(a: string, b: string, c: char)
    requires c !in b
    ensures Split(a + [c] + b, c) == Split(a, c) + [b]
  {
    var s := a + [c] + b;
    if b == [] {
      assert s[..|s| - 1] == a;
    } else {
      var b' := b[..|b| - 1];
      SplitAfter(a, b', c);
      assert s[..|s| - 1] == a + [c] + b';
      assert b' + [b[|b| - 1]] == b;
    }
  }

  /** Splitting a join at a one-character separator that no field contains
      gives back the fields. */
  lemma {:induction false} SplitJoin(fields: seq<string>, c: char)
    requires fields != [] && forall i :: 0 <= i < |fields| ==> c !in fields[i]
    ensures Split(Join(fields, [c]), c) == fields
  {
    if |fields| == 1 {
      SplitNoSep(fields[0], c);
    } else {
      var init, last := fields[..|fields| - 1], fields[|fields| - 1];
      assert Join(fields, [c]) == Join(init, [c]) + [c] + last;
      assert c !in last;
      SplitJoin(init, c);
      SplitAfter(Join(init, [c]), last, c);
      DropLast(fields);
    }
  }

  // ---------------------------------------------------------------------
  // joinInts (lines 170-178)

  /** A JSON null is an empty field; a number is its decimal string. */
  function Field(v: Option<int>): string {
    if v.None? then "" else DecimalString(v.value)
  }

  function Fields(arr: seq<Option<int>>): (r: seq<string>)
    ensures |r| == |arr| && forall i :: 0 <= i < |arr| ==> r[i] == Field(arr[i])
  {
    seq(|arr|, i requires 0 <= i < |arr| => Field(arr[i]))
  }

  /** `joinInts`: the separator goes before every entry but the first;
      each entry is appended as its field. */
  method JoinInts(arr: seq<Option<int>>, sep: string) returns (s: string)
    ensures s == Join(Fields(arr), sep)
  {
    s := "";
    for i := 0 to |arr|
      invariant s == Join(Fields(arr[..i]), sep)
    {
      assert Fields(arr[..i + 1])[..i] == Fields(arr[..i]);
      if i > 0 {
        s := s + sep;
      }
      s := s + Field(arr[i]);
    }
    assert arr[..|arr|] == arr;
  }

  /** A separator that no decimal string contains. */
  predicate PlainSep(c: char) {
    c != '-' && !('0' <= c <= '9')
  }

  /** Splitting the output of `joinInts` at its separator recovers the
      array: one field per entry, empty exactly for a null, and otherwise
      reading back to the number. */
  lemma JoinIntsRoundTrip(arr: seq<Option<int>>, c: char)
    requires arr != [] && PlainSep(c)
    ensures var fs := Split(Join(Fields(arr), [c]), c);
      && |fs| == |arr|
      && forall i :: 0 <= i < |arr| ==>
        (arr[i].None? <==> fs[i] == "") && (arr[i].Some? ==> ParseInt(fs[i]) == arr[i].value)
  {
    var fields := Fields(arr);
    forall i | 0 <= i < |fields| ensures c !in fields[i] {
    }
    SplitJoin(fields, c);
    forall i | 0 <= i < |arr| && arr[i].Some? ensures ParseInt(fields[i]) == arr[i].value {
      ParseDecimal(arr[i].value);
    }
  }

  // ---------------------------------------------------------------------
  // deriveSccSizes (lines 180-187) and the size string (line 61)

  /** The decimal size of each component. */
  function SizeFields(sccs: seq<seq<int>>): (r: seq<string>)
    ensures |r| == |sccs| && forall i :: 0 <= i < |sccs| ==> r[i] == DecimalString(|sccs[i]|)
  {
    seq(|sccs|, i requires 0 <= i < |sccs| => DecimalString(|sccs[i]|))
  }

  /** `deriveSccSizes`: the sizes of the components, separated. */
  method DeriveSccSizes(sccs: seq<seq<int>>, sep: string) returns (s: string)
    ensures s == Join(SizeFields(sccs), sep)
  {
    s := "";
    for i := 0 to |sccs|
      invariant s == Join(SizeFields(sccs[..i]), sep)
    {
      assert SizeFields(sccs[..i + 1])[..i] == SizeFields(sccs[..i]);
      if i > 0 {
        s := s + sep;
      }
      s := s + DecimalString(|sccs[i]|);
    }
    assert sccs[..|sccs|] == sccs;
  }

  /** One field per component, the `i`-th reading back to the size of the
      `i`-th component. */
  lemma SccSizesRoundTrip(sccs: seq<seq<int>>, c: char)
    requires sccs != [] && PlainSep(c)
    ensures var fs := Split(Join(SizeFields(sccs), [c]), c);
      |fs| == |sccs| && forall i :: 0 <= i < |sccs| ==> ParseInt(fs[i]) == |sccs[i]|
  {
    var fields := SizeFields(sccs);
    forall i | 0 <= i < |fields| ensures c !in fields[i] {
    }
    SplitJoin(fields, c);
    forall i | 0 <= i < |sccs| ensures ParseInt(fields[i]) == |sccs[i]| {
      ParseDecimal(|sccs[i]|);
    }
  }

  /** Line 61: the stored `scc_sizes` joined with `|` when present, else
      the sizes derived from the components. */
  method SccSizesStr(sccSizes: Option<seq<Option<int>>>, sccs: seq<seq<int>>) returns (s: string)
    ensures sccSizes.Some? ==> s == Join(Fields(sccSizes.value), "|")
    ensures sccSizes.None? ==> s == Join(SizeFields(sccs), "|")
  {
    if sccSizes.Some? {
      s := JoinInts(sccSizes.value, "|");
    } else {
      s := DeriveSccSizes(sccs, "|");
    }
  }

  /** When `scc_sizes` holds the component sizes, as the batch writer
      stores them, both branches of line 61 give the same string. */
  lemma SizesAgree(sccs: seq<seq<int>>, sep: string)
    ensures Join(Fields(seq(|sccs|, i requires 0 <= i < |sccs| => Some(|sccs[i]|))), sep)
         == Join(SizeFields(sccs), sep)
  {
    var arr := seq(|sccs|, i requires 0 <= i < |sccs| => Some(|sccs[i]|));
    assert Fields(arr) == SizeFields(sccs);
  }

  // ---------------------------------------------------------------------
  // csv (lines 189-194)

  /** How many double quotes `s` holds. */
  function Quotes(s: string): nat {
    if s == [] then 0 else (if s[0] == '"' then 1 else 0) + Quotes(s[1..])
  }

  /** `String.replace("\"", "\"\"")`: every double quote doubled, so the
      text grows by one character per quote. */
  function Escape(s: string): (r: string)
    ensures ('"' in r <==> '"' in s) && (',' in r <==> ',' in s) && ('\n' in r <==> '\n' in s)
    ensures |r| == |s| + Quotes(s)
  {
    if s == [] then []
    else (if s[0] == '"' then ['"', '"'] else [s[0]]) + Escape(s[1..])
  }

  predicate NeedsQuotes(q: string) {
    ',' in q || '"' in q || '\n' in q
  }

  /** `csv`: null becomes the empty string; otherwise quotes are doubled,
      and the result is wrapped in quotes when it holds a comma, a quote
      or a newline. */
  function Csv(s: Option<string>): string {
    if s.None? then ""
    else
      var q := Escape(s.value);
      if NeedsQuotes(q) then ['"'] + q + ['"'] else q
  }

  /** Collapses each doubled quote back to one. */
  function Undouble(t: string): string {
    if t == [] then []
    else if |t| >= 2 && t[0] == '"' && t[1] == '"' then ['"'] + Undouble(t[2..])
    else [t[0]] + Undouble(t[1..])
  }

  /** How a CSV reader takes one field: a quoted field loses its outer
      quotes and its doubled quotes; any other field is taken as is. */
  function ReadField(t: string): string {
    if |t| >= 2 && t[0] == '"' && t[|t| - 1] == '"' then Undouble(t[1..|t| - 1]) else t
  }

  lemma {:induction false} UndoubleEscape(s: string)
    ensures Undouble(Escape(s)) == s
  {
    if s != [] {
      UndoubleEscape(s[1..]);
      var e := Escape(s);
      if s[0] == '"' {
        assert e[2..] == Escape(s[1..]);
      } else {
        assert e[1..] == Escape(s[1..]);
      }
    }
  }

  lemma {:induction false} EscapePlain(s: string)
    requires '"' !in s
    ensures Escape(s) == s
  {
    if s != [] {
      EscapePlain(s[1..]);
    }
  }

  /** `csv(null)` is empty; a string with no comma, quote or newline comes
      back unchanged; any other string comes back wrapped in quotes; and a
      CSV reader recovers every string exactly. */
  lemma CsvRoundTrip(s: string)
    ensures Csv(None) == ""
    ensures !NeedsQuotes(s) ==> Csv(Some(s)) == s
    ensures NeedsQuotes(s) ==> Csv(Some(s)) == ['"'] + Escape(s) + ['"']
    ensures ReadField(Csv(Some(s))) == s
  {
    var q := Escape(s);
    if NeedsQuotes(s) {
      var t := ['"'] + q + ['"'];
      assert t[1..|t| - 1] == q;
      UndoubleEscape(s);
    } else {
      EscapePlain(s);
    }
  }

  // ---------------------------------------------------------------------
  // countNonNull (lines 207-212)

  /** The number of non-null entries. */
  function Present(a: seq<Option<int>>): (r: nat)
    ensures r <= |a|
    ensures r == |a| <==> forall i :: 0 <= i < |a| ==> a[i].Some?
    ensures r == 0 <==> forall i :: 0 <= i < |a| ==> a[i].None?
  {
    if a == [] then 0
    else
      var init := a[..|a| - 1];
      assert forall i :: 0 <= i < |init| ==> init[i] == a[i];
      Present(init) + (if a[|a| - 1].Some? then 1 else 0)
  }

  /** `countNonNull`: 0 for a missing array, else the number of entries
      that are not JSON null. */
  method CountNonNull(arr: Option<seq<Option<int>>>) returns (c: int)
    ensures arr.None? ==> c == 0
    ensures arr.Some? ==> c == Present(arr.value) && 0 <= c <= |arr.value|
  {
    if arr.None? {
      return 0;
    }
    var a := arr.value;
    c := 0;
    for i := 0 to |a|
      invariant c == Present(a[..i])
    {
      assert a[..i + 1][..i] == a[..i];
      if a[i].Some? {
        c := c + 1;
      }
    }
    assert a[..|a|] == a;
  }

  // ---------------------------------------------------------------------
  // component size statistics (lines 55-59)

  /** Lines 55-59: `sumScc` totals the component sizes; `maxScc` starts at
      0 and is raised by every larger size, so it is the largest size (or
      0 with no component). */
  method SccStats(sccs: seq<seq<int>>) returns (sumScc: int, maxScc: int)
    ensures sumScc == SumLengths(sccs)
    ensures maxScc >= 0 && forall k :: 0 <= k < |sccs| ==> |sccs[k]| <= maxScc
    ensures sccs != [] ==> exists k :: 0 <= k < |sccs| && maxScc == |sccs[k]|
    ensures sccs == [] ==> maxScc == 0
  {
    sumScc, maxScc := 0, 0;
    for k := 0 to |sccs|
      invariant sumScc == SumLengths(sccs[..k])
      invariant maxScc >= 0 && forall j :: 0 <= j < k ==> |sccs[j]| <= maxScc
      invariant k > 0 ==> exists j :: 0 <= j < k && maxScc == |sccs[j]|
      invariant k == 0 ==> maxScc == 0
    {
      assert sccs[..k + 1][..k] == sccs[..k];
      var sz := |sccs[k]|;
      sumScc := sumScc + sz;
      if sz > maxScc {
        maxScc := sz;
      }
    }
    assert sccs[..|sccs|] == sccs;
  }

  /** On a partition of `0..n-1` the sizes add up to `n`. */
  lemma PartitionSum(sccs: seq<seq<int>>, n: nat)
    requires IsPartition(sccs, n)
    ensures SumLengths(sccs) == n
  {
    var f := Flat(sccs);
    FlatLength(sccs);
    forall i | 0 <= i < |f| ensures 0 <= f[i] < n {
      assert f[i] in f;
    }
    Pigeonhole(f, n);
  }
}
