/** Linux CPU lists such as "0-3,8": the two-pass parser, the grammar it accepts, and printing. */
module CpuList {
  import opened Basics

  // The list is read into a buffer of this many characters, which it must not fill.
  const CAPACITY: nat := 512

  // The size of an element of the result in bytes.
  const SIZE_OF_ID: nat := 8

  // --- Numbers ----------------------------------------------------------------------------------

  predicate IsDigit(c: char) { '0' <= c <= '9' }

  function DigitValue(c: char): nat
    requires IsDigit(c)
  {
    c as int - '0' as int
  }

  predicate AreDigits(s: string) {
    forall i :: 0 <= i < |s| ==> IsDigit(s[i])
  }

  // The number that a string of digits denotes; leading zeros are allowed.
  function ValueOf(s: string): nat
    requires AreDigits(s)
  {
    if s == [] then 0 else 10 * ValueOf(s[..|s| - 1]) + DigitValue(s[|s| - 1])
  }

  // A 64-bit decimal number.
  predicate IsNumber(s: string) {
    s != [] && AreDigits(s) && ValueOf(s) <= SIZE_MAX
  }

  function DigitPrefix(s: string): (n: nat)
    ensures n <= |s| && AreDigits(s[..n]) && (n < |s| ==> !IsDigit(s[n]))
  {
    if s == [] || !IsDigit(s[0]) then 0
    else
      var n := DigitPrefix(s[1..]);
      assert s[..n + 1] == [s[0]] + s[1..][..n];
      n + 1
  }

  lemma {:induction false} DigitPrefixIsUnique(s: string, n: nat)
    requires n <= |s| && AreDigits(s[..n]) && (n < |s| ==> !IsDigit(s[n]))
    ensures DigitPrefix(s) == n
  {
    if n > 0 {
      assert s[0] == s[..n][0];
      assert s[1..][..n - 1] == s[..n][1..];
      DigitPrefixIsUnique(s[1..], n - 1);
    }
  }

  // std::from_chars for size_t: the value of the longest digit prefix and its length.
  function FromChars(s: string): Option<(nat, nat)> {
    var n := DigitPrefix(s);
    if n == 0 || ValueOf(s[..n]) > SIZE_MAX then None else Some((ValueOf(s[..n]), n))
  }

  // --- Items ------------------------------------------------------------------------------------

  /** A parsed item: consecutive CPU numbers. */
  datatype CpuIdRange = CpuIdRange(firstId: nat, cpuCount: nat) {
    function Ids(): (ids: seq<nat>)
      ensures |ids| == cpuCount
    {
      seq(cpuCount, j requires 0 <= j < cpuCount => firstId + j)
    }
  }

  // read_cpu_range on the characters between two commas.
  function ReadCpuRange(s: string): Option<CpuIdRange> {
    if s == [] then None
    else
      var first := FromChars(s);
      if first.None? then None
      else
        var (firstId, n) := first.value;
        if n == |s| then Some(CpuIdRange(firstId, 1))
        else if n > |s| || s[n] != '-' then None
        else
          var second := FromChars(s[n + 1..]);
          if second.None? || second.value.1 != |s| - (n + 1) || second.value.0 <= firstId then None
          else
            var span := second.value.0 - firstId;
            if span == SIZE_MAX then None else Some(CpuIdRange(firstId, span + 1))
  }

  /** The grammar of items: a number, or two numbers with a dash. */
  datatype Item = One(number: string) | Span(first: string, last: string) {
    predicate Valid() {
      match this
      case One(number) => IsNumber(number)
      case Span(first, last) =>
        IsNumber(first) && IsNumber(last) && ValueOf(first) < ValueOf(last) && ValueOf(last) - ValueOf(first) < SIZE_MAX
    }

    function Text(): string {
      match this
      case One(number) => number
      case Span(first, last) => first + "-" + last
    }

    function Range(): CpuIdRange
      requires Valid()
    {
      match this
      case One(number) => CpuIdRange(ValueOf(number), 1)
      case Span(first, last) => CpuIdRange(ValueOf(first), ValueOf(last) - ValueOf(first) + 1)
    }
  }

  lemma NumberIsRead(number: string, rest: string)
    requires IsNumber(number) && (rest != [] ==> !IsDigit(rest[0]))
    ensures FromChars(number + rest) == Some((ValueOf(number), |number|))
  {
    var s := number + rest;
    assert s[..|number|] == number;
    DigitPrefixIsUnique(s, |number|);
  }

  // Every valid item is read as the range it denotes.
  lemma ItemIsRead(item: Item)
    requires item.Valid()
    ensures ReadCpuRange(item.Text()) == Some(item.Range())
  {
    hide FromChars, ValueOf, AreDigits;
    match item
    case One(number) =>
      NumberIsRead(number, []);
      assert number + [] == number;
    case Span(first, last) =>
      var s := item.Text();
      NumberIsRead(first, "-" + last);
      assert s == first + ("-" + last);
      assert s[|first| + 1..] == last;
      NumberIsRead(last, []);
      assert last + [] == last;
  }

  // Nothing else is read.
  lemma ReadIsItem(s: string) returns (item: Item)
    requires ReadCpuRange(s).Some?
    ensures item.Valid() && item.Text() == s && ReadCpuRange(s) == Some(item.Range())
  {
    var (firstId, n) := FromChars(s).value;
    if n == |s| {
      assert s[..n] == s;
      item := One(s);
    } else {
      var rest := s[n + 1..];
      assert rest[..|rest|] == rest;
      item := Span(s[..n], rest);
      assert s == s[..n] + "-" + rest;
    }
  }

  // --- Lists ------------------------------------------------------------------------------------

  function Join(items: seq<Item>): string
    requires items != []
  {
    if |items| == 1 then items[0].Text() else items[0].Text() + "," + Join(items[1..])
  }

  predicate AreValid(items: seq<Item>) {
    forall i :: 0 <= i < |items| ==> items[i].Valid()
  }

  function Ranges(items: seq<Item>): (ranges: seq<CpuIdRange>)
    requires AreValid(items)
    ensures |ranges| == |items|
  {
    if items == [] then [] else [items[0].Range()] + Ranges(items[1..])
  }

  function TotalCount(ranges: seq<CpuIdRange>): nat {
    if ranges == [] then 0 else TotalCount(ranges[..|ranges| - 1]) + ranges[|ranges| - 1].cpuCount
  }

  // The CPU numbers of all items, in order.
  function AllIds(ranges: seq<CpuIdRange>): (ids: seq<nat>)
    ensures |ids| == TotalCount(ranges)
  {
    if ranges == [] then [] else AllIds(ranges[..|ranges| - 1]) + ranges[|ranges| - 1].Ids()
  }

  // The grammar of files: items separated by single commas, at most one newline at the end, and not more CPUs than
  // an array can hold.
  ghost predicate IsCpuList(contents: string, items: seq<Item>) {
    && items != [] && AreValid(items)
    && (contents == Join(items) || contents == Join(items) + "\n")
    && TotalCount(Ranges(items)) <= SIZE_MAX / SIZE_OF_ID
  }

  // find_next_comma, or the end.
  function ItemEnd(s: string): (n: nat)
    ensures n <= |s| && (forall i :: 0 <= i < n ==> s[i] != ',') && (n < |s| ==> s[n] == ',')
  {
    if s == [] || s[0] == ',' then 0
    else
      var n := ItemEnd(s[1..]);
      assert forall i :: 1 <= i < n + 1 ==> s[i] == s[1..][i - 1];
      n + 1
  }

  // The items that the loops read, one after the other.
  function ReadItems(s: string): Option<seq<CpuIdRange>>
    decreases |s|
  {
    if s == [] then Some([])
    else
      var n := ItemEnd(s);
      var range := ReadCpuRange(s[..n]);
      var rest := ReadItems(if n < |s| then s[n + 1..] else []);
      if range.None? || rest.None? then None else Some([range.value] + rest.value)
  }

  // What follows the first item of a list.
  function AfterItem(s: string): string {
    var n := ItemEnd(s); if n < |s| then s[n + 1..] else []
  }

  lemma ReadItemsStep(s: string)
    ensures s == [] ==> ReadItems(s) == Some([])
    ensures s != [] ==>
              var range, rest := ReadCpuRange(s[..ItemEnd(s)]), ReadItems(AfterItem(s));
              ReadItems(s) == if range.None? || rest.None? then None else Some([range.value] + rest.value)
  {
  }

  lemma ItemHasNoComma(item: Item)
    requires item.Valid()
    ensures item.Text() != [] && IsDigit(item.Text()[0]) && IsDigit(item.Text()[|item.Text()| - 1])
    ensures forall i :: 0 <= i < |item.Text()| ==> item.Text()[i] != ','
  {
  }

  lemma FirstItem(text: string, rest: string)
    requires forall i :: 0 <= i < |text| ==> text[i] != ','
    requires rest != [] ==> rest[0] == ','
    ensures ItemEnd(text + rest) == |text|
  {
    var s := text + rest;
    assert forall i :: 0 <= i < |text| ==> s[i] == text[i];
    assert rest != [] ==> s[|text|] == rest[0];
  }

  lemma {:induction false} JoinIsRead(items: seq<Item>)
    requires items != [] && AreValid(items)
    ensures ReadItems(Join(items)) == Some(Ranges(items))
    ensures Join(items) != [] && IsDigit(Join(items)[|Join(items)| - 1])
  {
    hide ReadCpuRange, ItemEnd, Item.Valid, Item.Text, Item.Range, ReadItems;
    var text, s := items[0].Text(), Join(items);
    ItemIsRead(items[0]);
    ItemHasNoComma(items[0]);
    ReadItemsStep(s);
    if |items| == 1 {
      FirstItem(text, []);
      assert text + [] == s && s[..|text|] == text;
      assert Ranges(items[1..]) == [];
      ReadItemsStep([]);
    } else {
      JoinIsRead(items[1..]);
      var rest := Join(items[1..]);
      assert s == text + ("," + rest);
      FirstItem(text, "," + rest);
      assert s[..|text|] == text && s[|text| + 1..] == rest;
    }
  }

  lemma {:induction false} ReadIsJoin(s: string) returns (items: seq<Item>)
    requires s != [] && s[|s| - 1] != ',' && ReadItems(s).Some?
    ensures items != [] && AreValid(items) && Join(items) == s && ReadItems(s) == Some(Ranges(items))
    decreases |s|
  {
    hide ReadCpuRange, ItemEnd, Item.Valid, Item.Text, Item.Range, ReadItems;
    var n := ItemEnd(s);
    ReadItemsStep(s);
    var item := ReadIsItem(s[..n]);
    if n == |s| {
      assert s[..n] == s;
      items := [item];
      assert Ranges(items[1..]) == [];
      ReadItemsStep([]);
    } else {
      var rest := s[n + 1..];
      var tail := ReadIsJoin(rest);
      items := [item] + tail;
      assert items[1..] == tail;
      assert s == s[..n] + "," + rest;
    }
  }

  // --- The parser -------------------------------------------------------------------------------

  // Items read so far, and those still to be read.
  ghost predicate Split(body: string, done: seq<CpuIdRange>, begin: nat) {
    && begin <= |body|
    && ReadItems(body) == match ReadItems(body[begin..]) case None => None case Some(rest) => Some(done + rest)
  }

  lemma SplitStart(body: string)
    ensures Split(body, [], 0)
  {
    assert body[0..] == body;
    if ReadItems(body).Some? {
      assert [] + ReadItems(body).value == ReadItems(body).value;
    }
  }

  lemma SplitEnd(body: string, done: seq<CpuIdRange>)
    requires Split(body, done, |body|)
    ensures ReadItems(body) == Some(done)
  {
    assert body[|body|..] == [];
    assert done + [] == done;
  }

  lemma SplitStep(body: string, done: seq<CpuIdRange>, begin: nat)
    requires Split(body, done, begin) && begin < |body|
    ensures var n := ItemEnd(body[begin..]);
            var range := ReadCpuRange(body[begin..begin + n]);
            && (range.None? ==> ReadItems(body).None?)
            && (range.Some? ==> Split(body, done + [range.value], Min(begin + n + 1, |body|)))
  {
    hide ReadCpuRange, ItemEnd, ReadItems;
    var s := body[begin..];
    var n := ItemEnd(s);
    ReadItemsStep(s);
    TailOfTail(body, begin, n);
    AfterFirst(body, begin);
    hide AfterItem;
    var next := Min(begin + n + 1, |body|);
    var range, rest := ReadCpuRange(s[..n]), ReadItems(body[next..]);
    if range.Some? && rest.Some? {
      assert done + ([range.value] + rest.value) == (done + [range.value]) + rest.value;
    }
  }

  lemma AfterFirst(body: string, begin: nat)
    requires begin < |body|
    ensures AfterItem(body[begin..]) == body[Min(begin + ItemEnd(body[begin..]) + 1, |body|)..]
  {
    hide ItemEnd;
    var s := body[begin..];
    var n := ItemEnd(s);
    if n < |s| {
      TailOfTail(body, begin, n + 1);
    } else {
      assert body[|body|..] == [];
    }
  }

  lemma TailOfTail(s: string, a: nat, b: nat)
    requires a + b <= |s|
    ensures s[a..][b..] == s[a + b..] && s[a..][..b] == s[a..a + b]
  {
  }

  // The counts of the items read so far never exceed the total.
  lemma SplitTotal(body: string, done: seq<CpuIdRange>, begin: nat)
    requires Split(body, done, begin) && ReadItems(body).Some?
    ensures TotalCount(done) <= TotalCount(ReadItems(body).value)
  {
    TotalOfPrefix(done, ReadItems(body[begin..]).value);
  }

  lemma TotalOfNext(done: seq<CpuIdRange>, range: CpuIdRange)
    ensures TotalCount(done + [range]) == TotalCount(done) + range.cpuCount
    ensures AllIds(done + [range]) == AllIds(done) + range.Ids()
  {
    assert (done + [range])[..|done|] == done;
  }

  lemma {:induction false} TotalOfPrefix(a: seq<CpuIdRange>, b: seq<CpuIdRange>)
    ensures TotalCount(a) <= TotalCount(a + b)
  {
    if b == [] {
      assert a + b == a;
    } else {
      TotalOfPrefix(a, b[..|b| - 1]);
      assert (a + b)[..|a + b| - 1] == a + b[..|b| - 1];
    }
  }

  // First pass: validate and count, checking the sum for overflow.
  method CountCpus(body: string) returns (count: Option<nat>)
    ensures count.Some? <==> ReadItems(body).Some? && TotalCount(ReadItems(body).value) <= SIZE_MAX
    ensures count.Some? ==> count.value == TotalCount(ReadItems(body).value)
  {
    hide ReadCpuRange, ItemEnd, ReadItems, Split, TotalCount;
    var cpuCount, begin := 0, 0;
    ghost var done := [];
    SplitStart(body);
    assert TotalCount(done) == 0 by { NothingCounted(); }
    while begin < |body|
      invariant begin <= |body| && Split(body, done, begin) && cpuCount == TotalCount(done) <= SIZE_MAX
      decreases |body| - begin
    {
      var end := begin + ItemEnd(body[begin..]);
      var range := ReadCpuRange(body[begin..end]);
      SplitStep(body, done, begin);
      if range.None? {
        return None;
      }
      TotalOfNext(done, range.value);
      done := done + [range.value];
      begin := if end < |body| then end + 1 else |body|;
      if cpuCount > SIZE_MAX - range.value.cpuCount {
        if ReadItems(body).Some? {
          SplitTotal(body, done, begin);
        }
        return None;
      }
      cpuCount := cpuCount + range.value.cpuCount;
    }
    SplitEnd(body, done);
    return Some(cpuCount);
  }

  lemma NothingCounted()
    ensures TotalCount([]) == 0 && AllIds([]) == []
  {
  }

  // Second pass: every slot is written once, in order.
  method FillIds(body: string, result: array<nat>)
    requires ReadItems(body).Some? && result.Length == TotalCount(ReadItems(body).value)
    modifies result
    ensures result[..] == AllIds(ReadItems(body).value)
  {
    hide ReadCpuRange, ItemEnd, ReadItems, Split, TotalCount, AllIds, CpuIdRange.Ids;
    var begin, i := 0, 0;
    ghost var done := [];
    SplitStart(body);
    NothingCounted();
    while begin < |body|
      invariant begin <= |body| && Split(body, done, begin)
      invariant i == TotalCount(done) <= result.Length && result[..i] == AllIds(done)
      decreases |body| - begin
    {
      var end := begin + ItemEnd(body[begin..]);
      SplitStep(body, done, begin);
      var range := ReadCpuRange(body[begin..end]).value;
      TotalOfNext(done, range);
      done := done + [range];
      begin := if end < |body| then end + 1 else |body|;
      SplitTotal(body, done, begin);
      FillRange(result, i, range);
      assert result[..i + range.cpuCount] == result[..i] + range.Ids();
      i := i + range.cpuCount;
    }
    SplitEnd(body, done);
    assert result[..i] == result[..];
  }

  method FillRange(result: array<nat>, i: nat, range: CpuIdRange)
    requires i + range.cpuCount <= result.Length
    modifies result
    ensures result[..i] == old(result[..i]) && result[i..i + range.cpuCount] == range.Ids()
  {
    for j := 0 to range.cpuCount
      invariant result[..i] == old(result[..i])
      invariant result[i..i + j] == range.Ids()[..j]
    {
      result[i + j] := range.firstId + j;
      assert result[i..i + j + 1] == result[i..i + j] + [range.firstId + j];
    }
  }

  // The text without its final newline, if it has one.
  function BodyOf(contents: string): string
    requires contents != []
  {
    if contents[|contents| - 1] == '\n' then contents[..|contents| - 1] else contents
  }

  // Both passes over a body that is not empty and does not end with a comma.
  method ReadBody(body: string, memoryLeft: bool) returns (ids: Option<seq<nat>>)
    ensures ids.Some?
       <==> memoryLeft && ReadItems(body).Some? && TotalCount(ReadItems(body).value) <= SIZE_MAX / SIZE_OF_ID
    ensures ids.Some? ==> ids.value == AllIds(ReadItems(body).value)
  {
    hide ReadItems, TotalCount, AllIds;
    var count := CountCpus(body);
    if count.None? || count.value > SIZE_MAX / SIZE_OF_ID || !memoryLeft {
      return None;
    }
    var result := new nat[count.value](_ => 0);
    FillIds(body, result);
    return Some(result[..]);
  }

  // read_online_cpu_ids on the contents of the file, if it can be read: it accepts exactly the lists of fewer than 512
  // characters and not too many CPUs, and returns the CPU numbers that the items denote.
  method ReadOnlineCpuIds(file: Option<string>, memoryLeft: bool) returns (ids: Option<seq<nat>>)
    ensures ids.Some? <==>
              && file.Some? && |file.value| < 512 && memoryLeft
              && exists items :: items != [] && AreValid(items)
                   && (file.value == Join(items) || file.value == Join(items) + "\n")
                   && |AllIds(Ranges(items))| <= 0x1FFF_FFFF_FFFF_FFFF
    ensures ids.Some? ==>
              forall items | items != [] && AreValid(items) ::
                file.value == Join(items) || file.value == Join(items) + "\n" ==> ids.value == AllIds(Ranges(items))
  {
    ids := ReadCpuList(file, memoryLeft);
    if ids.Some? {
      ghost var items :| IsCpuList(file.value, items);
      forall other | other != [] && AreValid(other)
                     && (file.value == Join(other) || file.value == Join(other) + "\n")
        ensures ids.value == AllIds(Ranges(other))
      {
        SameRanges(file.value, other, items);
      }
    } else if file.Some? {
      forall items | items != [] && AreValid(items)
                     && (file.value == Join(items) || file.value == Join(items) + "\n")
                     && |AllIds(Ranges(items))| <= 0x1FFF_FFFF_FFFF_FFFF
        ensures IsCpuList(file.value, items)
      {
      }
    }
  }

  method ReadCpuList(file: Option<string>, memoryLeft: bool) returns (ids: Option<seq<nat>>)
    ensures ids.Some?
       <==> file.Some? && |file.value| < CAPACITY && memoryLeft && exists items :: IsCpuList(file.value, items)
    ensures ids.Some? ==> forall items :: IsCpuList(file.value, items) ==> ids.value == AllIds(Ranges(items))
  {
    hide IsCpuList, ReadItems, TotalCount, AllIds, Ranges;
    if file.None? || |file.value| >= CAPACITY {
      return None;
    }
    var contents := file.value;
    forall items ensures !IsCpuList([], items) {
      NeverEmpty(items);
    }
    if contents == [] {
      return None;
    }
    var body := BodyOf(contents);
    forall items | IsCpuList(contents, items)
      ensures AreValid(items) && body != [] && body[|body| - 1] != ','
      ensures AreValid(items) && ReadItems(body) == Some(Ranges(items))
      ensures AreValid(items) && TotalCount(Ranges(items)) <= SIZE_MAX / SIZE_OF_ID
    {
      ListIsRead(contents, items);
    }
    if body == [] || body[|body| - 1] == ',' {
      return None;
    }
    ids := ReadBody(body, memoryLeft);
    if ids.Some? {
      var items := ReadIsList(contents);
    }
  }

  lemma NeverEmpty(items: seq<Item>)
    ensures !IsCpuList([], items)
  {
    if items != [] && AreValid(items) { JoinIsRead(items); }
  }

  // A list is read from its body.
  lemma ListIsRead(contents: string, items: seq<Item>)
    requires contents != [] && IsCpuList(contents, items)
    ensures var body := BodyOf(contents);
            && items != [] && AreValid(items) && body == Join(items) && body != [] && body[|body| - 1] != ','
            && ReadItems(body) == Some(Ranges(items))
            && TotalCount(Ranges(items)) <= SIZE_MAX / SIZE_OF_ID
  {
    hide ReadItems, TotalCount, Ranges, Join;
    JoinIsRead(items);
    if contents == Join(items) + "\n" {
      assert contents[..|contents| - 1] == Join(items);
    }
  }

  // What is read is a list.
  lemma ReadIsList(contents: string) returns (items: seq<Item>)
    requires contents != []
    requires var body := BodyOf(contents);
             && body != [] && body[|body| - 1] != ',' && ReadItems(body).Some?
             && TotalCount(ReadItems(body).value) <= SIZE_MAX / SIZE_OF_ID
    ensures IsCpuList(contents, items)
  {
    hide ReadItems, TotalCount, Ranges, Join;
    var body := BodyOf(contents);
    items := ReadIsJoin(body);
    assert contents == body || contents == body + "\n";
  }

  // --- Printing ---------------------------------------------------------------------------------

  function PrintNumber(n: nat): (s: string)
    ensures s != [] && AreDigits(s) && ValueOf(s) == n
  {
    var digit := [('0' as int + n % 10) as char];
    assert ValueOf(digit[..0]) == 0;
    if n < 10 then digit
    else
      var s := PrintNumber(n / 10) + digit;
      assert s[..|s| - 1] == PrintNumber(n / 10);
      s
  }

  predicate IsPrintable(range: CpuIdRange) {
    range.cpuCount > 0 && range.firstId + range.cpuCount - 1 <= SIZE_MAX && range.cpuCount <= SIZE_MAX
  }

  function Print(range: CpuIdRange): (item: Item)
    requires IsPrintable(range)
    ensures item.Valid() && item.Range() == range
  {
    if range.cpuCount == 1 then One(PrintNumber(range.firstId))
    else Span(PrintNumber(range.firstId), PrintNumber(range.firstId + range.cpuCount - 1))
  }

  function PrintAll(ranges: seq<CpuIdRange>): (items: seq<Item>)
    requires forall i :: 0 <= i < |ranges| ==> IsPrintable(ranges[i])
    ensures AreValid(items) && Ranges(items) == ranges
  {
    if ranges == [] then []
    else
      var rest := PrintAll(ranges[1..]);
      var items := [Print(ranges[0])] + rest;
      assert items[1..] == rest;
      items
  }

  // Parsing a printed list of ranges, with or without a newline, gives back its expansion.
  method ParsePrinted(ranges: seq<CpuIdRange>, newline: bool) returns (ids: Option<seq<nat>>)
    requires ranges != [] && forall i :: 0 <= i < |ranges| ==> IsPrintable(ranges[i])
    ensures var text := Join(PrintAll(ranges)) + if newline then "\n" else "";
            ids == if |text| < 512 && |AllIds(ranges)| <= 0x1FFF_FFFF_FFFF_FFFF then Some(AllIds(ranges)) else None
  {
    hide Join, TotalCount, AllIds, Ranges, AreValid;
    var items := PrintAll(ranges);
    var text := Join(items) + if newline then "\n" else "";
    assert Join(items) + "" == Join(items);
    ids := ReadOnlineCpuIds(Some(text), true);
    forall other | other != [] && AreValid(other) && (text == Join(other) || text == Join(other) + "\n")
      ensures Ranges(other) == ranges
    {
      SameRanges(text, items, other);
    }
  }

  // Two lists with the same text have the same ranges.
  lemma SameRanges(text: string, items: seq<Item>, other: seq<Item>)
    requires items != [] && AreValid(items) && (text == Join(items) || text == Join(items) + "\n")
    requires other != [] && AreValid(other) && (text == Join(other) || text == Join(other) + "\n")
    ensures Ranges(other) == Ranges(items)
  {
    hide ReadItems, Ranges, Join;
    JoinIsRead(items);
    JoinIsRead(other);
    BodyOfList(text, items);
    BodyOfList(text, other);
  }

  // The body is the list without the newline.
  lemma BodyOfList(text: string, items: seq<Item>)
    requires items != [] && AreValid(items) && (text == Join(items) || text == Join(items) + "\n")
    ensures text != [] && BodyOf(text) == Join(items)
  {
    hide Ranges, Join, ReadItems;
    JoinIsRead(items);
    if text == Join(items) + "\n" {
      assert text[..|text| - 1] == Join(items);
    }
  }

  // --- What lists denote ------------------------------------------------------------------------

  // Only decimal digits denote numbers, each its distance from '0'.
  lemma DigitsDenote(s: string, c: char)
    ensures AreDigits(s) <==> forall i :: 0 <= i < |s| ==> '0' <= s[i] <= '9'
    ensures '0' <= c <= '9' ==> ValueOf([c]) == c as int - '0' as int
  {
    assert [c][..0] == [];
  }

  function Power(base: nat, exponent: nat): nat {
    if exponent == 0 then 1 else base * Power(base, exponent - 1)
  }

  // The first digits count the more, the more digits follow.
  lemma {:induction false} DigitsInFront(s: string, t: string)
    requires AreDigits(s) && AreDigits(t)
    ensures AreDigits(s + t) && ValueOf(s + t) == ValueOf(s) * Power(10, |t|) + ValueOf(t)
  {
    if t == [] {
      assert s + t == s;
    } else {
      var front := t[..|t| - 1];
      DigitsInFront(s, front);
      assert (s + t)[..|s + t| - 1] == s + front;
      TenTimes(ValueOf(s), Power(10, |front|));
    }
  }

  lemma TenTimes(value: nat, power: nat)
    ensures value * (10 * power) == 10 * (value * power)
  {
  }

  // A number is an item that denotes itself.
  lemma NumberDenotes(number: string)
    requires AreDigits(number)
    ensures One(number).Valid() <==> |number| > 0 && ValueOf(number) <= 0xFFFF_FFFF_FFFF_FFFF
    ensures Join([One(number)]) == number
    ensures One(number).Valid() ==> AllIds(Ranges([One(number)])) == [ValueOf(number)]
  {
    hide ValueOf, AreDigits;
    if One(number).Valid() { OneItem(One(number)); }
  }

  // A span denotes all numbers from its first to its last; they must be two at least, and not all 64-bit numbers.
  lemma SpanDenotes(first: string, last: string)
    requires AreDigits(first) && AreDigits(last)
    ensures Span(first, last).Valid() <==>
              && |first| > 0 && |last| > 0 && ValueOf(first) < ValueOf(last) <= 0xFFFF_FFFF_FFFF_FFFF
              && (ValueOf(first) == 0 ==> ValueOf(last) < 0xFFFF_FFFF_FFFF_FFFF)
    ensures Join([Span(first, last)]) == first + "-" + last
    ensures Span(first, last).Valid() ==>
              var ids := AllIds(Ranges([Span(first, last)]));
              |ids| == ValueOf(last) - ValueOf(first) + 1 && forall k :: 0 <= k < |ids| ==> ids[k] == ValueOf(first) + k
  {
    hide ValueOf, AreDigits;
    if Span(first, last).Valid() { OneItem(Span(first, last)); }
  }

  lemma OneItem(item: Item)
    requires item.Valid()
    ensures AllIds(Ranges([item])) == item.Range().Ids()
  {
    hide Item.Valid;
    var items := [item];
    assert Ranges(items) == [item.Range()] + Ranges(items[1..]) && Ranges(items[1..]) == [];
    assert AllIds([item.Range()]) == AllIds([item.Range()][..0]) + item.Range().Ids();
  }

  // Lists are put together with a comma, and denote the CPU numbers of the one before those of the other.
  lemma {:induction false} ListsDenote(a: seq<Item>, b: seq<Item>)
    requires a != [] && b != [] && AreValid(a) && AreValid(b)
    ensures Join(a + b) == Join(a) + "," + Join(b)
    ensures AllIds(Ranges(a + b)) == AllIds(Ranges(a)) + AllIds(Ranges(b))
  {
    hide Item.Valid, Item.Text, Item.Range, AllIds;
    RangesOfBoth(a, b);
    AllIdsOfBoth(Ranges(a), Ranges(b));
    assert (a + b)[0] == a[0] && (a + b)[1..] == a[1..] + b;
    if |a| > 1 {
      ListsDenote(a[1..], b);
    } else {
      assert a[1..] + b == b;
    }
  }

  lemma {:induction false} RangesOfBoth(a: seq<Item>, b: seq<Item>)
    requires AreValid(a) && AreValid(b)
    ensures Ranges(a + b) == Ranges(a) + Ranges(b)
  {
    hide Item.Valid, Item.Range;
    if a == [] {
      assert a + b == b;
    } else {
      assert (a + b)[0] == a[0] && (a + b)[1..] == a[1..] + b;
      RangesOfBoth(a[1..], b);
    }
  }

  lemma {:induction false} AllIdsOfBoth(a: seq<CpuIdRange>, b: seq<CpuIdRange>)
    ensures AllIds(a + b) == AllIds(a) + AllIds(b)
  {
    hide CpuIdRange.Ids;
    if b == [] {
      assert a + b == a;
    } else {
      assert (a + b)[..|a + b| - 1] == a + b[..|b| - 1];
      AllIdsOfBoth(a, b[..|b| - 1]);
    }
  }

  lemma TwoDigits(c: char, d: char)
    requires '0' <= c <= '9' && '0' <= d <= '9'
    ensures AreDigits([c]) && AreDigits([c, d])
    ensures ValueOf([c, d]) == 10 * (c as int - '0' as int) + (d as int - '0' as int)
    ensures ValueOf([c]) == c as int - '0' as int
  {
    DigitsDenote([], c);
    assert [c, d][..1] == [c];
  }

  // A list with everything that lists can have.
  method ReadExample(memoryLeft: bool) returns (ids: Option<seq<nat>>)
    ensures ids == if memoryLeft then Some([0, 1, 2, 3, 8, 10, 11, 12]) else None
  {
    ids := ReadOnlineCpuIds(Some("0-3,8,10-12\n"), memoryLeft);
    ghost var a, b, c := Span("0", "3"), One("8"), Span("10", "12");
    TwoDigits('0', '0');
    TwoDigits('3', '3');
    TwoDigits('8', '8');
    TwoDigits('1', '0');
    TwoDigits('1', '2');
    SpanDenotes("0", "3");
    NumberDenotes("8");
    SpanDenotes("10", "12");
    ListsDenote([b], [c]);
    ListsDenote([a], [b] + [c]);
    hide AllIds, Ranges, Join, ValueOf;
    ghost var items := [a] + ([b] + [c]);
    assert Join(items) + "\n" == "0-3,8,10-12\n";
    assert AllIds(Ranges([a])) == [0, 1, 2, 3];
    assert AllIds(Ranges([c])) == [10, 11, 12];
    assert AllIds(Ranges(items)) == [0, 1, 2, 3, 8, 10, 11, 12];
  }

  // What every list is like.
  lemma ListIsLike(contents: string, items: seq<Item>)
    requires items != [] && AreValid(items) && (contents == Join(items) || contents == Join(items) + "\n")
    ensures contents != [] && BodyOf(contents) != [] && ReadItems(BodyOf(contents)).Some?
    ensures IsDigit(BodyOf(contents)[|BodyOf(contents)| - 1])
  {
    hide ReadItems, Join, Ranges;
    BodyOfList(contents, items);
    JoinIsRead(items);
  }

  lemma FirstItemRefused(s: string)
    requires s != [] && ReadCpuRange(s[..ItemEnd(s)]).None?
    ensures ReadItems(s).None?
  {
  }

  lemma RefusedBodies()
    ensures ReadItems("1,,2").None? && ReadItems(",1").None? && ReadItems("-1").None? && ReadItems("3-3").None?
  {
    hide ReadItems;
    FirstItemRefused(",2");
    assert "1,,2"[1 + 1..] == ",2";
    FirstItem("1", ",,2");
    assert "1" + ",,2" == "1,,2";
    ReadItemsStep("1,,2");
    FirstItemRefused(",1");
    FirstItem("-1", "");
    assert "-1" + "" == "-1" && "-1"[..2] == "-1";
    FirstItemRefused("-1");
    FirstItem("3-3", "");
    assert "3-3" + "" == "3-3" && "3-3"[..3] == "3-3" && "3-3"[2..] == "3";
    DigitPrefixIsUnique("3-3", 1);
    DigitPrefixIsUnique("3", 1);
    assert "3-3"[..1] == "3" == "3"[..1];
    FirstItemRefused("3-3");
  }

  // Contents that are not like a list.
  ghost predicate IsMalformed(contents: string) {
    || contents == [] || BodyOf(contents) == [] || !IsDigit(BodyOf(contents)[|BodyOf(contents)| - 1])
    || ReadItems(BodyOf(contents)).None?
  }

  lemma MalformedExamples()
    ensures IsMalformed("") && IsMalformed("\n") && IsMalformed("1,,2") && IsMalformed("1,") && IsMalformed(",1")
    ensures IsMalformed("1\n\n") && IsMalformed("-1") && IsMalformed("1-") && IsMalformed("1 ") && IsMalformed("3-3")
  {
    hide ReadItems;
    RefusedBodies();
    assert BodyOf("\n") == "" && BodyOf("1\n\n") == "1\n";
  }

  // What is refused: no items, a missing item, a second newline, a sign, a blank, and a span of one number.
  method ReadMalformed(contents: string) returns (ids: Option<seq<nat>>)
    requires contents in ["", "\n", "1,,2", "1,", ",1", "1\n\n", "-1", "1-", "1 ", "3-3"]
    ensures ids == None
  {
    ids := ReadOnlineCpuIds(Some(contents), true);
    hide ReadItems, Join, Ranges;
    assert IsMalformed(contents) by {
      MalformedExamples();
      hide IsMalformed;
    }
    forall items | items != [] && AreValid(items) && (contents == Join(items) || contents == Join(items) + "\n")
      ensures false
    {
      ListIsLike(contents, items);
    }
  }

  function Zeros(n: nat): (items: seq<Item>)
    ensures |items| == n && AreValid(items)
  {
    seq(n, _ => One("0"))
  }

  lemma {:induction false} ZerosDenote(n: nat)
    requires n > 0
    ensures Join(Zeros(n)) == seq(2 * n - 1, k => if k % 2 == 0 then '0' else ',')
    ensures AllIds(Ranges(Zeros(n))) == seq(n, _ => 0)
  {
    TwoDigits('0', '0');
    NumberDenotes("0");
    hide Join, Ranges, AllIds;
    if n == 1 {
      assert Zeros(1) == [One("0")];
    } else {
      ZerosDenote(n - 1);
      assert Zeros(n) == Zeros(n - 1) + [One("0")];
      ListsDenote(Zeros(n - 1), [One("0")]);
    }
  }

  // The longest list that fits in the buffer has 511 characters; with a newline it does not fit.
  method ReadLongest(newline: bool) returns (ids: Option<seq<nat>>)
    ensures ids == if newline then None else Some(seq(256, _ => 0))
  {
    var contents: string := seq(511, k => if k % 2 == 0 then '0' else ',');
    ids := ReadOnlineCpuIds(Some(contents + if newline then "\n" else ""), true);
    ZerosDenote(256);
    hide Join, Ranges, AllIds;
    assert contents + "" == contents == Join(Zeros(256));
  }
}
