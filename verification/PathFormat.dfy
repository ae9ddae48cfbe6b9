/**
 File name patterns: expanding `%` directives for the local time and the rotation index into a buffer of
 fixed size.  `Expand` is the text without any buffer; its table is the code's own, in which `%j` counts
 the days of the year from zero and `%I` is `tm_hour % 12 + 1`.
 */
module PathFormat {
  import opened Numerals

  /** The fields of `std::tm` that are used, with `year` already counted from the year zero. */
  datatype Tm = Tm(year: nat, mon: nat, mday: nat, wday: nat, yday: nat, hour: nat, min: nat, sec: nat)

  /** A value stored as a digit, as the cast to `char` leaves it. */
  function Stored(n: nat): char {
    ((n + 48) % 256) as char
  }

  function Two(n: nat): string { [Stored(n / 10), Stored(n % 10)] }

  function Year(n: nat): string {
    [Stored(n / 1000), Stored((n / 100) % 10), Stored((n / 10) % 10), Stored(n % 10)]
  }

  function TimeDirective(c: char, tm: Tm): (s: string)
    ensures |s| > 0
  {
    match c
    case 'Y' => Year(tm.year)
    case 'y' => [Stored((tm.year / 10) % 10), Stored(tm.year % 10)]
    case 'm' => Two(tm.mon + 1)
    case 'j' => [Stored(tm.yday / 100), Stored((tm.yday / 10) % 10), Stored(tm.yday % 10)]
    case 'd' => Two(tm.mday)
    case 'w' => [Stored(tm.wday)]
    case 'H' => Two(tm.hour)
    case 'I' => Two(tm.hour % 12 + 1)
    case 'M' => Two(tm.min)
    case 'S' => Two(tm.sec)
    case 'F' => Year(tm.year) + "-" + Two(tm.mon + 1) + "-" + Two(tm.mday)
    case 'T' => Two(tm.hour) + ":" + Two(tm.min) + ":" + Two(tm.sec)
    case 'R' => Two(tm.hour) + ":" + Two(tm.min)
    case _ => [c]
  }

  predicate IsIndex(c: char) { c == 'n' || c == 'N' }

  /** What stands for `%c`: the rotation index counted from one or from zero, a part of the time, or `c`. */
  function Directive(c: char, tm: Tm, index: nat): (s: string)
    ensures |s| > 0
  {
    if IsIndex(c) then Decimal(if c == 'n' then index + 1 else index) else TimeDirective(c, tm)
  }

  function Expand(fmt: string, tm: Tm, index: nat): string {
    if fmt == [] then []
    else if fmt[0] != '%' then [fmt[0]] + Expand(fmt[1..], tm, index)
    else if |fmt| == 1 then []
    else Directive(fmt[1], tm, index) + Expand(fmt[2..], tm, index)
  }

  /** What is still to be expanded when the scan stands at `i`, possibly just behind a `%`. */
  function Rest(fmt: string, i: nat, needParse: bool, tm: Tm, index: nat): string
    requires i <= |fmt|
  {
    if !needParse then Expand(fmt[i..], tm, index)
    else if i == |fmt| then []
    else Directive(fmt[i], tm, index) + Expand(fmt[i + 1..], tm, index)
  }

  lemma RestStep(fmt: string, i: nat, needParse: bool, tm: Tm, index: nat)
    requires i < |fmt|
    ensures Rest(fmt, i, needParse, tm, index) ==
            (if needParse then Directive(fmt[i], tm, index) else if fmt[i] == '%' then [] else [fmt[i]])
            + Rest(fmt, i + 1, !needParse && fmt[i] == '%', tm, index)
  {
    var s := fmt[i..];
    assert s[0] == fmt[i] && s[1..] == fmt[i + 1..];
    if |s| > 1 { assert s[2..] == fmt[i + 2..] && s[1] == fmt[i + 1]; }
  }

  /** An index numeral begins before the end of the `room` and does not end there; it is cut. */
  predicate Overruns(fmt: string, tm: Tm, index: nat, room: nat)
    decreases |fmt|
  {
    fmt != [] && room > 0 &&
    if fmt[0] != '%' then Overruns(fmt[1..], tm, index, room - 1)
    else |fmt| > 1 && DirectiveOverruns(fmt[1], fmt[2..], tm, index, room)
  }

  predicate DirectiveOverruns(c: char, rest: string, tm: Tm, index: nat, room: nat)
    decreases |rest| + 1
  {
    var size := |Directive(c, tm, index)|;
    if size <= room then Overruns(rest, tm, index, room - size) else IsIndex(c)
  }

  predicate RestOverruns(fmt: string, i: nat, needParse: bool, tm: Tm, index: nat, room: nat)
    requires i <= |fmt|
  {
    if !needParse then Overruns(fmt[i..], tm, index, room)
    else i < |fmt| && room > 0 && DirectiveOverruns(fmt[i], fmt[i + 1..], tm, index, room)
  }

  lemma OverrunStep(fmt: string, i: nat, needParse: bool, tm: Tm, index: nat, room: nat)
    requires i < |fmt| && room > 0
    ensures RestOverruns(fmt, i, needParse, tm, index, room) ==
            if !needParse && fmt[i] == '%' then RestOverruns(fmt, i + 1, true, tm, index, room)
            else
              var size := if needParse then |Directive(fmt[i], tm, index)| else 1;
              if size <= room then RestOverruns(fmt, i + 1, false, tm, index, room - size) else IsIndex(fmt[i])
  {
    var s := fmt[i..];
    assert s[0] == fmt[i] && s[1..] == fmt[i + 1..];
    if |s| > 1 { assert s[2..] == fmt[i + 2..] && s[1] == fmt[i + 1]; }
  }

  /** Stores `s` from position `at` on. */
  method Put(buff: array<char>, at: nat, s: string)
    requires at + |s| <= buff.Length
    modifies buff
    ensures buff[..at] == old(buff[..at])
    ensures buff[at..at + |s|] == s
    ensures buff[at + |s|..] == old(buff[at + |s|..])
  {
    for k := 0 to |s|
      invariant buff[..at] == old(buff[..at])
      invariant buff[at..at + k] == s[..k]
      invariant buff[at + |s|..] == old(buff[at + |s|..])
    {
      buff[at + k] := s[k];
    }
  }

  /** `snprintf` of a numeral into `room` bytes: as many digits as fit before the NUL; answers the full length. */
  method PutNumber(buff: array<char>, at: nat, room: nat, digits: string) returns (len: nat)
    requires 0 < room && at + room <= buff.Length
    modifies buff
    ensures len == |digits|
    ensures var kept := if len < room then len else room - 1;
            && buff[..at + kept] == old(buff[..at]) + digits[..kept]
            && buff[at + room..] == old(buff[at + room..])
  {
    len := |digits|;
    var kept := if len < room then len else room - 1;
    ghost var before := buff[..at];
    ghost var after := buff[at + room..];
    Put(buff, at, digits[..kept]);
    assert buff[..at + kept] == before + digits[..kept];
    assert buff[at + room..] == after by {
      forall k | at + room <= k < buff.Length ensures buff[k] == old(buff[k]) {
        assert buff[at + kept..][k - (at + kept)] == old(buff[at + kept..])[k - (at + kept)];
      }
    }
    buff[at + kept] := '\0';
    assert buff[..at + kept] == before + digits[..kept];
  }

  /** Whether the pattern names the rotation index. */
  predicate HasIndex(fmt: string) {
    |fmt| >= 2 &&
    if fmt[0] != '%' then HasIndex(fmt[1..]) else IsIndex(fmt[1]) || HasIndex(fmt[2..])
  }

  /**
   Fills the first `bufz` places of `buff` and no others.  The text left there, terminated by NUL, is a
   prefix of the expansion, and all of it whenever the expansion and its NUL fit.  The length that is answered
   is beyond the buffer exactly when the buffer ends inside an index numeral.
   */
  method FormatPath(buff: array<char>, bufz: nat, fmt: string, tm: Tm, index: nat) returns (ret: nat)
    requires bufz <= buff.Length
    modifies buff
    ensures buff[bufz..] == old(buff[bufz..])
    ensures bufz == 0 ==> ret == 0
    ensures bufz > 0 ==>
              var kept := if ret < bufz then ret else bufz - 1;
              buff[kept] == '\0' && buff[..kept] <= Expand(fmt, tm, index)
    ensures |Expand(fmt, tm, index)| < bufz ==>
              ret == |Expand(fmt, tm, index)| && buff[..ret] == Expand(fmt, tm, index)
    ensures ret <= |Expand(fmt, tm, index)|
    ensures ret > bufz <==> Overruns(fmt, tm, index, bufz)
    ensures bufz > 0 && ret < bufz && ret < |Expand(fmt, tm, index)| ==> |Expand(fmt, tm, index)| > bufz
  {
    if bufz == 0 {
      return 0;
    }
    if fmt == [] {
      buff[0] := '\0';
      return 0;
    }
    ghost var text: string := [];
    var needParse, running := false, true;
    ret := 0;
    var i := 0;
    assert fmt[0..] == fmt;
    while i < |fmt| && ret < bufz && running
      invariant Scan(fmt, tm, index, bufz, i, needParse, running, text) && ret == |text|
      invariant buff[..if ret < bufz then ret else bufz - 1] == text[..if ret < bufz then ret else bufz - 1]
      invariant buff[bufz..] == old(buff[bufz..])
      decreases |fmt| - i
    {
      if !needParse && fmt[i] == '%' {
        ScanPercent(fmt, tm, index, bufz, i, text);
        needParse := true;
      } else {
        var s := if needParse then Directive(fmt[i], tm, index) else [fmt[i]];
        var number := needParse && IsIndex(fmt[i]);
        ScanItem(fmt, tm, index, bufz, i, needParse, text);
        ret, running := Emit(buff, bufz, ret, s, number, text);
        text := if running then text + s else text;
        needParse := false;
      }
      i := i + 1;
    }
    ScanEnd(fmt, tm, index, bufz, i, needParse, running, text);
    var kept := if ret < bufz then ret else bufz - 1;
    ghost var shown := buff[..kept];
    buff[kept] := '\0';
    assert buff[..kept] == shown == text[..kept];
  }

  /** Where the scan stands at `i` with `text` written: what is missing from the expansion, and how it will end. */
  ghost predicate Scan(fmt: string, tm: Tm, index: nat, bufz: nat, i: nat, needParse: bool, running: bool,
                       text: string)
  {
    var full := Expand(fmt, tm, index);
    && i <= |fmt|
    && (running ==> full == text + Rest(fmt, i, needParse, tm, index))
    && (!running ==> text <= full && |full| > bufz)
    && Overruns(fmt, tm, index, bufz) ==
       if running && |text| <= bufz then RestOverruns(fmt, i, needParse, tm, index, bufz - |text|) else |text| > bufz
  }

  lemma ScanPercent(fmt: string, tm: Tm, index: nat, bufz: nat, i: nat, text: string)
    requires i < |fmt| && |text| < bufz && fmt[i] == '%' && Scan(fmt, tm, index, bufz, i, false, true, text)
    ensures Scan(fmt, tm, index, bufz, i + 1, true, true, text)
  {
    RestStep(fmt, i, false, tm, index);
    OverrunStep(fmt, i, false, tm, index, bufz - |text|);
    assert text + ([] + Rest(fmt, i + 1, true, tm, index)) == text + Rest(fmt, i + 1, true, tm, index);
  }

  lemma ScanItem(fmt: string, tm: Tm, index: nat, bufz: nat, i: nat, needParse: bool, text: string)
    requires i < |fmt| && |text| < bufz && (needParse || fmt[i] != '%')
    requires Scan(fmt, tm, index, bufz, i, needParse, true, text)
    ensures var s := if needParse then Directive(fmt[i], tm, index) else [fmt[i]];
            var running := (needParse && IsIndex(fmt[i])) || bufz - |text| >= |s|;
            Scan(fmt, tm, index, bufz, i + 1, false, running, if running then text + s else text)
  {
    var s := if needParse then Directive(fmt[i], tm, index) else [fmt[i]];
    RestStep(fmt, i, needParse, tm, index);
    OverrunStep(fmt, i, needParse, tm, index, bufz - |text|);
    Regroup(text, s, Rest(fmt, i + 1, false, tm, index));
  }

  lemma ScanEnd(fmt: string, tm: Tm, index: nat, bufz: nat, i: nat, needParse: bool, running: bool, text: string)
    requires bufz > 0 && Scan(fmt, tm, index, bufz, i, needParse, running, text)
    requires i == |fmt| || |text| >= bufz || !running
    ensures var full := Expand(fmt, tm, index);
            && text <= full && (|full| < bufz ==> text == full)
            && (|text| < bufz && |text| < |full| ==> |full| > bufz)
    ensures |text| > bufz <==> Overruns(fmt, tm, index, bufz)
  {
    if i == |fmt| {
      assert fmt[i..] == [];
      assert text + [] == text;
    }
  }

  lemma Regroup(a: string, b: string, c: string)
    ensures a + (b + c) == a + b + c
    ensures a <= a + (b + c) && |a + (b + c)| >= |a| + |b|
  {
  }

  /** One item: a number is cut to what fits, anything else is stored whole or stops the scan. */
  method Emit(buff: array<char>, bufz: nat, at: nat, s: string, number: bool, ghost text: string)
    returns (ret: nat, running: bool)
    requires 0 < bufz <= buff.Length && at < bufz && |s| > 0
    requires at == |text| && buff[..at] == text
    modifies buff
    ensures running <==> number || bufz - at >= |s|
    ensures ret == if running then at + |s| else at
    ensures running ==>
              var kept := if ret < bufz then ret else bufz - 1; buff[..kept] == (text + s)[..kept]
    ensures !running ==> buff[..at] == text
    ensures buff[bufz..] == old(buff[bufz..])
  {
    if number {
      ret := StoreNumber(buff, bufz, at, s, text);
      running := true;
    } else if bufz - at < |s| {
      ret, running := at, false;
    } else {
      ret := Store(buff, bufz, at, s, text);
      running := true;
    }
  }

  /** A complete item goes into the buffer behind the text already there. */
  method Store(buff: array<char>, bufz: nat, at: nat, s: string, ghost text: string) returns (ret: nat)
    requires 0 < bufz <= buff.Length && at < bufz && at + |s| <= bufz
    requires at == |text| && buff[..at] == text
    modifies buff
    ensures ret == at + |s|
    ensures var kept := if ret < bufz then ret else bufz - 1; buff[..kept] == (text + s)[..kept]
    ensures buff[bufz..] == old(buff[bufz..])
  {
    ghost var after := buff[bufz..];
    Put(buff, at, s);
    ret := at + |s|;
    assert buff[..ret] == text + s;
    assert buff[bufz..] == after by {
      forall k | bufz <= k < buff.Length ensures buff[k] == old(buff[k]) {
        assert buff[ret..][k - ret] == old(buff[at + |s|..])[k - ret];
      }
    }
  }

  method StoreNumber(buff: array<char>, bufz: nat, at: nat, digits: string, ghost text: string) returns (ret: nat)
    requires 0 < bufz <= buff.Length && at < bufz
    requires at == |text| && buff[..at] == text
    modifies buff
    ensures ret == at + |digits|
    ensures var kept := if ret < bufz then ret else bufz - 1; buff[..kept] == (text + digits)[..kept]
    ensures buff[bufz..] == old(buff[bufz..])
  {
    var len := PutNumber(buff, at, bufz - at, digits);
    ret := at + len;
  }

  // ---- the paths of the rotation slots

  /** Only the index directives depend on the index: they grow with it and tell indices apart. */
  lemma DirectiveByIndex(c: char, tm: Tm, i: nat, j: nat)
    requires i <= j
    ensures |Directive(c, tm, i)| <= |Directive(c, tm, j)|
    ensures !IsIndex(c) ==> Directive(c, tm, i) == Directive(c, tm, j)
    ensures IsIndex(c) && Directive(c, tm, i) == Directive(c, tm, j) ==> i == j
  {
    if IsIndex(c) {
      var from := if c == 'n' then 1 else 0;
      DecimalOrder(i + from, j + from);
    }
  }

  lemma DecimalOrder(i: nat, j: nat)
    requires i <= j
    ensures |Decimal(i)| <= |Decimal(j)|
    ensures Decimal(i) == Decimal(j) ==> i == j
  {
    DecimalGrows(i, j);
    ValueOfDecimal(i);
    ValueOfDecimal(j);
  }

  lemma {:induction false} ExpandGrows(fmt: string, tm: Tm, i: nat, j: nat)
    requires i <= j
    ensures |Expand(fmt, tm, i)| <= |Expand(fmt, tm, j)|
  {
    if fmt == [] || |fmt| == 1 {
    } else if fmt[0] != '%' {
      ExpandGrows(fmt[1..], tm, i, j);
    } else {
      DirectiveByIndex(fmt[1], tm, i, j);
      ExpandGrows(fmt[2..], tm, i, j);
    }
  }

  lemma Aligned(a: string, b: string, c: string, d: string)
    requires a + b == c + d && |a| <= |c| && |b| <= |d|
    ensures a == c && b == d
  {
    assert a == (a + b)[..|a|] && c == (c + d)[..|c|];
    assert b == (a + b)[|a|..] && d == (c + d)[|c|..];
  }

  /** Patterns that name the index give different slots different paths. */
  lemma {:induction false} SlotsDistinct(fmt: string, tm: Tm, i: nat, j: nat)
    requires HasIndex(fmt) && i <= j && Expand(fmt, tm, i) == Expand(fmt, tm, j)
    ensures i == j
  {
    if fmt[0] != '%' {
      ExpandGrows(fmt[1..], tm, i, j);
      Aligned([fmt[0]], Expand(fmt[1..], tm, i), [fmt[0]], Expand(fmt[1..], tm, j));
      SlotsDistinct(fmt[1..], tm, i, j);
    } else {
      DirectiveByIndex(fmt[1], tm, i, j);
      ExpandGrows(fmt[2..], tm, i, j);
      Aligned(Directive(fmt[1], tm, i), Expand(fmt[2..], tm, i), Directive(fmt[1], tm, j), Expand(fmt[2..], tm, j));
      if !IsIndex(fmt[1]) { SlotsDistinct(fmt[2..], tm, i, j); }
    }
  }

  lemma {:induction false} OnePath(fmt: string, tm: Tm, i: nat, j: nat)
    requires !HasIndex(fmt)
    ensures Expand(fmt, tm, i) == Expand(fmt, tm, j)
  {
    if |fmt| >= 2 {
      if fmt[0] != '%' { OnePath(fmt[1..], tm, i, j); } else { OnePath(fmt[2..], tm, i, j); }
    } else if |fmt| == 1 {
      assert fmt[1..] == [];
    }
  }

  /** The first `r` slots have different paths. */
  ghost predicate OwnPaths(fmt: string, tm: Tm, r: nat) {
    forall i: nat, j: nat | i < j < r :: Expand(fmt, tm, i) != Expand(fmt, tm, j)
  }

  /** The slots have paths of their own if and only if there is only one or the pattern names the index. */
  lemma PathPerSlot(fmt: string, tm: Tm, r: nat)
    ensures OwnPaths(fmt, tm, r) <==> r <= 1 || HasIndex(fmt)
  {
    if HasIndex(fmt) {
      forall i: nat, j: nat | i < j < r ensures Expand(fmt, tm, i) != Expand(fmt, tm, j) {
        if Expand(fmt, tm, i) == Expand(fmt, tm, j) { SlotsDistinct(fmt, tm, i, j); }
      }
    } else if r > 1 {
      OnePath(fmt, tm, 0, 1);
    }
  }

  /** Whether the pattern is free of time directives. */
  predicate Timeless(fmt: string) {
    |fmt| >= 2 ==>
      if fmt[0] != '%' then Timeless(fmt[1..]) else fmt[1] !in "YymjdwHIMSFTR" && Timeless(fmt[2..])
  }

  /** Such a pattern gives the same path at all times. */
  lemma {:induction false} TimelessPath(fmt: string, tm: Tm, now: Tm, index: nat)
    requires Timeless(fmt)
    ensures Expand(fmt, tm, index) == Expand(fmt, now, index)
  {
    if |fmt| >= 2 {
      if fmt[0] != '%' {
        TimelessPath(fmt[1..], tm, now, index);
      } else {
        TimelessPath(fmt[2..], tm, now, index);
      }
    } else if |fmt| == 1 {
      assert fmt[1..] == [];
    }
  }

  // Two times that differ in everything a directive can show.
  const ZERO := Tm(0, 0, 0, 0, 0, 0, 0, 0)
  const ONES := Tm(1111, 1, 1, 1, 111, 1, 1, 1)

  lemma DirectiveDiffers(c: char, index: nat)
    ensures |Directive(c, ZERO, index)| == |Directive(c, ONES, index)|
    ensures c in "YymjdwHIMSFTR" ==> Directive(c, ZERO, index) != Directive(c, ONES, index)
  {
    if c in "YymjdwHIMS" {
      NumericDiffers(c);
    } else if c in "FTR" {
      CompositeDiffers(c);
    }
  }

  lemma NumericDiffers(c: char)
    requires c in "YymjdwHIMS"
    ensures |TimeDirective(c, ZERO)| == |TimeDirective(c, ONES)| && TimeDirective(c, ZERO) != TimeDirective(c, ONES)
  {
    TimeReads(c, ZERO);
    TimeReads(c, ONES);
    assert Numeric(c, ZERO) != Numeric(c, ONES);
  }

  lemma CompositeDiffers(c: char)
    requires c in "FTR"
    ensures |TimeDirective(c, ZERO)| == |TimeDirective(c, ONES)| && TimeDirective(c, ZERO) != TimeDirective(c, ONES)
  {
    var at := if c == 'F' then 0 else 1;
    assert TimeDirective(c, ZERO)[at] == '0' && TimeDirective(c, ONES)[at] == '1';
  }

  lemma {:induction false} ExpandSameSize(fmt: string, index: nat)
    ensures |Expand(fmt, ZERO, index)| == |Expand(fmt, ONES, index)|
  {
    if |fmt| >= 2 {
      if fmt[0] != '%' {
        ExpandSameSize(fmt[1..], index);
      } else {
        DirectiveDiffers(fmt[1], index);
        ExpandSameSize(fmt[2..], index);
      }
    } else if |fmt| == 1 {
      assert fmt[1..] == [];
    }
  }

  lemma {:induction false} TimedDiffers(fmt: string, index: nat)
    requires !Timeless(fmt)
    ensures Expand(fmt, ZERO, index) != Expand(fmt, ONES, index)
  {
    if fmt[0] != '%' {
      TimedDiffers(fmt[1..], index);
      var c, d := Expand(fmt[1..], ZERO, index), Expand(fmt[1..], ONES, index);
      assert ([fmt[0]] + c)[1..] == c && ([fmt[0]] + d)[1..] == d;
    } else {
      var a, b := Directive(fmt[1], ZERO, index), Directive(fmt[1], ONES, index);
      var c, d := Expand(fmt[2..], ZERO, index), Expand(fmt[2..], ONES, index);
      DirectiveDiffers(fmt[1], index);
      ExpandSameSize(fmt[2..], index);
      if fmt[1] !in "YymjdwHIMSFTR" { TimedDiffers(fmt[2..], index); }
      if a + c == b + d { Aligned(a, c, b, d); }
    }
  }

  /** A pattern gives the same paths at all times if and only if it has no time directive. */
  lemma TimelessExactly(fmt: string)
    ensures Timeless(fmt) <==> forall tm: Tm, now: Tm, index: nat :: Expand(fmt, tm, index) == Expand(fmt, now, index)
  {
    if Timeless(fmt) {
      forall tm: Tm, now: Tm, index: nat ensures Expand(fmt, tm, index) == Expand(fmt, now, index) {
        TimelessPath(fmt, tm, now, index);
      }
    } else {
      TimedDiffers(fmt, 0);
    }
  }

  // ---- what the directives say

  /** `%N` is the rotation index counted from zero and `%n` counted from one, without leading zeros. */
  lemma IndexReads(tm: Tm, index: nat)
    ensures Value(Directive('N', tm, index)) == index && Value(Directive('n', tm, index)) == index + 1
    ensures index > 0 ==> Directive('N', tm, index)[0] != '0'
    ensures Directive('n', tm, index)[0] != '0' && |Directive('N', tm, 0)| == 1
  {
    ValueOfDecimal(index);
    ValueOfDecimal(index + 1);
    NoLeadingZero(index);
    NoLeadingZero(index + 1);
  }

  /** Any other character behind a `%` stands for itself. */
  lemma UnknownStays(c: char, tm: Tm, index: nat)
    requires c !in "nNYymjdwHIMSFTR"
    ensures Directive(c, tm, index) == [c]
  {
  }

  /** Text without `%` stays as it is. */
  lemma {:induction false} LiteralStays(s: string, tm: Tm, index: nat)
    requires '%' !in s
    ensures Expand(s, tm, index) == s
  {
    if s != [] { LiteralStays(s[1..], tm, index); }
  }

  lemma {:induction false} LiteralFirst(s: string, rest: string, tm: Tm, index: nat)
    requires '%' !in s
    ensures Expand(s + rest, tm, index) == s + Expand(rest, tm, index)
  {
    if s == [] {
      assert s + rest == rest;
    } else {
      LiteralFirst(s[1..], rest, tm, index);
      assert (s + rest)[1..] == s[1..] + rest;
      Regroup([s[0]], s[1..], Expand(rest, tm, index));
      assert [s[0]] + s[1..] == s;
    }
  }

  /** Behind it a directive is replaced, and a `%` at the end is dropped. */
  lemma DirectiveReplaced(s: string, c: char, rest: string, tm: Tm, index: nat)
    requires '%' !in s
    ensures Expand(s + (['%', c] + rest), tm, index) == s + (Directive(c, tm, index) + Expand(rest, tm, index))
    ensures Expand(s + ['%'], tm, index) == s
  {
    LiteralFirst(s, ['%', c] + rest, tm, index);
    LiteralFirst(s, ['%'], tm, index);
    assert (['%', c] + rest)[2..] == rest;
    assert s + [] == s;
  }

  lemma ValueNext(s: string, d: nat)
    requires d < 10
    ensures Value(s + [Stored(d)]) == 10 * Value(s) + d
  {
    assert (s + [Stored(d)])[..|s|] == s;
  }

  lemma TwoReads(n: nat)
    requires n < 100
    ensures Value(Two(n)) == n && |Two(n)| == 2
  {
    ValueNext([], n / 10);
    ValueNext([Stored(n / 10)], n % 10);
    assert [] + [Stored(n / 10)] == [Stored(n / 10)];
    assert [Stored(n / 10)] + [Stored(n % 10)] == Two(n);
  }

  lemma ThreeDigits(a: nat, b: nat, c: nat)
    requires a < 10 && b < 10 && c < 10
    ensures Value([Stored(a), Stored(b), Stored(c)]) == 100 * a + 10 * b + c
  {
    var x, y, z := Stored(a), Stored(b), Stored(c);
    ValueNext([], a);
    ValueNext([x], b);
    ValueNext([x, y], c);
    assert [] + [x] == [x] && [x] + [y] == [x, y] && [x, y] + [z] == [x, y, z];
  }

  lemma ThreeReads(n: nat)
    requires n < 1000
    ensures Value([Stored(n / 100), Stored((n / 10) % 10), Stored(n % 10)]) == n
  {
    ThreeDigits(n / 100, (n / 10) % 10, n % 10);
    assert n / 10 / 10 == n / 100;
  }

  lemma YearReads(n: nat)
    requires n < 10000
    ensures Value(Year(n)) == n && |Year(n)| == 4
  {
    var front := [Stored(n / 1000), Stored((n / 100) % 10), Stored((n / 10) % 10)];
    assert n / 10 / 100 == n / 1000 && n / 10 / 10 == n / 100;
    ThreeReads(n / 10);
    ValueNext(front, n % 10);
    assert front + [Stored(n % 10)] == Year(n);
  }

  lemma ShortYear(n: nat)
    ensures Two(n % 100) == [Stored((n / 10) % 10), Stored(n % 10)]
  {
    var q, r := n / 100, n % 100;
    TenTimes(10 * q + r / 10, r % 10);
    TenTimes(q, r / 10);
    assert n == 10 * (10 * q + r / 10) + r % 10;
  }

  lemma TenTimes(a: nat, b: nat)
    requires b < 10
    ensures (10 * a + b) / 10 == a && (10 * a + b) % 10 == b
  {
  }

  predicate LegalTime(tm: Tm) {
    && tm.year < 10000 && tm.mon < 12 && tm.mday < 32 && tm.wday < 7 && tm.yday < 366
    && tm.hour < 24 && tm.min < 60 && tm.sec < 62
  }

  /** The number a directive stands for; `%j` counts from zero and `%I` is an hour ahead. */
  function Numeric(c: char, tm: Tm): nat {
    match c
    case 'Y' => tm.year
    case 'y' => tm.year % 100
    case 'm' => tm.mon + 1
    case 'j' => tm.yday
    case 'd' => tm.mday
    case 'w' => tm.wday
    case 'H' => tm.hour
    case 'I' => tm.hour % 12 + 1
    case 'M' => tm.min
    case 'S' => tm.sec
    case _ => 0
  }

  predicate Digits(s: string) {
    forall i | 0 <= i < |s| :: '0' <= s[i] <= '9'
  }

  lemma StoredDigit(n: nat)
    requires n < 10
    ensures '0' <= Stored(n) <= '9'
  {
  }

  /** Read as numerals of fixed width, the directives give the time back. */
  lemma TimeReads(c: char, tm: Tm)
    requires LegalTime(tm) && c in "YymjdwHIMS"
    ensures Value(TimeDirective(c, tm)) == Numeric(c, tm)
    ensures |TimeDirective(c, tm)| == if c == 'Y' then 4 else if c == 'j' then 3 else if c == 'w' then 1 else 2
    ensures Digits(TimeDirective(c, tm))
  {
    if c == 'Y' {
      YearReads(tm.year);
      YearDigits(tm.year);
    } else if c == 'j' {
      ThreeReads(tm.yday);
      DayDigits(tm.yday);
    } else if c == 'w' {
      ValueNext([], tm.wday);
      assert [] + [Stored(tm.wday)] == [Stored(tm.wday)];
      StoredDigit(tm.wday);
    } else {
      if c == 'y' { ShortYear(tm.year); }
      TwoReads(Numeric(c, tm));
      TwoDigits(Numeric(c, tm));
    }
  }

  lemma TwoDigits(n: nat)
    requires n < 100
    ensures Digits(Two(n))
  {
    StoredDigit(n / 10);
    StoredDigit(n % 10);
  }

  lemma DayDigits(n: nat)
    requires n < 1000
    ensures Digits([Stored(n / 100), Stored((n / 10) % 10), Stored(n % 10)])
  {
    StoredDigit(n / 100);
    StoredDigit((n / 10) % 10);
    StoredDigit(n % 10);
  }

  lemma YearDigits(n: nat)
    requires n < 10000
    ensures Digits(Year(n))
  {
    StoredDigit(n / 1000);
    StoredDigit((n / 100) % 10);
    StoredDigit((n / 10) % 10);
    StoredDigit(n % 10);
  }

  /** What strftime writes for `%j` and `%I`. */
  function Standard(c: char, tm: Tm): nat {
    if c == 'j' then tm.yday + 1 else (tm.hour + 11) % 12 + 1
  }

  /** The code's day of the year and its hour of twelve are never those of strftime. */
  lemma NeverStandard(c: char, tm: Tm)
    requires LegalTime(tm) && (c == 'j' || c == 'I')
    ensures Value(TimeDirective(c, tm)) != Standard(c, tm)
  {
    TimeReads(c, tm);
  }

  lemma ExpandConcat(c: char, d: char, rest: string, tm: Tm, index: nat)
    requires c != '%'
    ensures Expand(['%', d, c] + rest, tm, index) == Directive(d, tm, index) + [c] + Expand(rest, tm, index)
  {
    var s := ['%', d, c] + rest;
    assert s[2..] == [c] + rest && s[2..][1..] == rest;
  }

  lemma ExpandOne(d: char, tm: Tm, index: nat)
    ensures Expand(['%', d], tm, index) == Directive(d, tm, index)
  {
    assert ['%', d][2..] == [];
  }

  /** The composite directives stand for the patterns one would expect. */
  lemma Composites(tm: Tm, index: nat)
    ensures TimeDirective('F', tm) == Expand("%Y-%m-%d", tm, index)
    ensures TimeDirective('T', tm) == Expand("%H:%M:%S", tm, index)
    ensures TimeDirective('R', tm) == Expand("%H:%M", tm, index)
  {
    FullDate(tm, index);
    FullTime(tm, index);
    ExpandOne('M', tm, index);
    ExpandConcat(':', 'H', ['%', 'M'], tm, index);
    assert "%H:%M" == ['%', 'H', ':'] + ['%', 'M'];
  }

  lemma FullDate(tm: Tm, index: nat)
    ensures TimeDirective('F', tm) == Expand("%Y-%m-%d", tm, index)
  {
    Three('Y', '-', 'm', '-', 'd', tm, index);
    assert "%Y-%m-%d" == ['%', 'Y', '-'] + (['%', 'm', '-'] + ['%', 'd']);
  }

  lemma FullTime(tm: Tm, index: nat)
    ensures TimeDirective('T', tm) == Expand("%H:%M:%S", tm, index)
  {
    Three('H', ':', 'M', ':', 'S', tm, index);
    assert "%H:%M:%S" == ['%', 'H', ':'] + (['%', 'M', ':'] + ['%', 'S']);
  }

  lemma Three(a: char, c: char, b: char, d: char, e: char, tm: Tm, index: nat)
    requires c != '%' && d != '%'
    ensures Expand(['%', a, c] + (['%', b, d] + ['%', e]), tm, index)
         == Directive(a, tm, index) + [c] + Directive(b, tm, index) + [d] + Directive(e, tm, index)
  {
    ExpandOne(e, tm, index);
    ExpandConcat(d, b, ['%', e], tm, index);
    ExpandConcat(c, a, ['%', b, d] + ['%', e], tm, index);
    Unnest(Directive(a, tm, index), c, Directive(b, tm, index), d, Directive(e, tm, index));
  }

  lemma Unnest(x: string, c: char, y: string, d: char, z: string)
    ensures x + [c] + (y + [d] + z) == x + [c] + y + [d] + z
  {
  }
}
