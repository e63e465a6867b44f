/**
 * The configuration store of src/utils/config.c: a list of typed items, saved as text and loaded back by guessing
 * each value's type. Doubles are kept abstract: `Doubles` says how they print and scan.
 */
module Config {
  import opened ConfigText
  import opened LinkedList
  import opened Outcomes

  const LINE_SIZE: nat := 1024

  /** `%f` and `strtod`. */
  datatype Doubles<!D> = Doubles(show: D -> string, scan: string -> Option<D>)

  /** What every C library gives: `%f` prints clean text that is no whole number, and no word for a truth value,
      nor the empty string, is a number. */
  ghost predicate Standard<D(!new)>(doubles: Doubles<D>) {
    && doubles.scan("").None? && doubles.scan("true").None? && doubles.scan("false").None?
    && forall d :: var t := doubles.show(d); GoodValue(t) && '\n' !in t && ScanLong(t).None?
  }

  datatype Value<D> = Str(s: string) | Int(n: int) | Long(l: int) | Double(d: D) | Bool(b: bool)

  /** The widths of `int` and `long`. */
  ghost predicate InRange<D>(v: Value<D>) {
    && (v.Int? ==> INT_MIN <= v.n <= INT_MAX)
    && (v.Long? ==> LONG_MIN <= v.l <= LONG_MAX)
  }

  datatype Item<D> = Item(key: string, value: Value<D>)

  // ---------------------------------------------------------------- values

  function Show<D>(doubles: Doubles<D>, v: Value<D>): string {
    match v
    case Str(s) => s
    case Int(n) => Decimal(n)
    case Long(n) => Decimal(n)
    case Double(d) => doubles.show(d)
    case Bool(b) => if b then "true" else "false"
  }

  /** The type guess of a loaded value: int, long, double, bool, and a string when nothing else fits. */
  function Infer<D>(doubles: Doubles<D>, s: string): Value<D> {
    match ScanInt(s)
    case Some(n) => Int(n)
    case None =>
      match ScanLong(s)
      case Some(n) => Long(n)
      case None =>
        match doubles.scan(s)
        case Some(d) => Double(d)
        case None =>
          match ScanBool(s)
          case Some(b) => Bool(b)
          case None => Str(s)
  }

  /** When each guess is made. */
  lemma InferCases<D>(doubles: Doubles<D>, s: string)
    ensures forall n :: Infer(doubles, s) == Int(n) <==> ScanLong(s) == Some(n) && -0x8000_0000 <= n < 0x8000_0000
    ensures forall n :: Infer(doubles, s) == Long(n) <==> ScanLong(s) == Some(n) && !(-0x8000_0000 <= n < 0x8000_0000)
    ensures forall d :: Infer(doubles, s) == Double(d) <==> ScanLong(s) == None && doubles.scan(s) == Some(d)
    ensures forall b :: Infer(doubles, s) == Bool(b) <==> ScanLong(s) == None && doubles.scan(s) == None && ScanBool(s) == Some(b)
    ensures forall t :: Infer(doubles, s) == Str(t) ==> t == s
  {
  }

  /** The values a file keeps: a string must be clean and look like nothing else, a long must need its width,
      and a double must survive its six printed decimals. */
  ghost predicate Kept<D>(doubles: Doubles<D>, v: Value<D>) {
    match v
    case Str(s) => GoodValue(s) && '\n' !in s && ScanLong(s).None? && doubles.scan(s).None? && ScanBool(s).None?
    case Int(n) => true
    case Long(n) => !(INT_MIN <= n <= INT_MAX)
    case Double(d) => doubles.scan(doubles.show(d)) == Some(d)
    case Bool(b) => true
  }

  lemma ShowInfer<D(!new)>(doubles: Doubles<D>, v: Value<D>)
    requires Standard(doubles) && InRange(v) && Kept(doubles, v)
    ensures var t := Show(doubles, v); GoodValue(t) && '\n' !in t && Infer(doubles, t) == v
  {
    match v
    case Str(s) =>
    case Int(n) => ScanDecimal(n);
    case Long(n) => ScanDecimal(n);
    case Double(d) => assert GoodValue(doubles.show(d));
    case Bool(b) => TruthWords();
  }

  lemma TruthWords()
    ensures ScanLong("true").None? && ScanLong("false").None?
    ensures ScanBool("true") == Some(true) && ScanBool("false") == Some(false)
  {
    assert !IsDigit("true"[0]) && !IsDigit("false"[0]);
    LowerIsSame("true");
    LowerIsSame("false");
  }

  lemma {:induction false} LowerIsSame(s: string)
    requires forall c <- s :: 'a' <= c <= 'z'
    ensures Lower(s) == s
  {
    if s != [] {
      assert s[0] in s && forall c <- s[1..] :: c in s;
      LowerIsSame(s[1..]);
    }
  }

  // ---------------------------------------------------------------- items

  predicate HasKey<D>(items: seq<Item<D>>, key: string) {
    exists i :: 0 <= i < |items| && items[i].key == key
  }

  ghost predicate DistinctKeys<D>(items: seq<Item<D>>) {
    forall i, j :: 0 <= i < j < |items| ==> items[i].key != items[j].key
  }

  function Lookup<D>(items: seq<Item<D>>, key: string): Option<Value<D>> {
    if items == [] then None
    else if items[0].key == key then Some(items[0].value)
    else Lookup(items[1..], key)
  }

  lemma {:induction false} LookupMeaning<D>(items: seq<Item<D>>, key: string, v: Value<D>)
    requires DistinctKeys(items)
    ensures Lookup(items, key) == Some(v) <==> Item(key, v) in items
  {
    if items != [] {
      LookupMeaning(items[1..], key, v);
      assert items == [items[0]] + items[1..];
    }
  }

  lemma {:induction false} LookupNone<D>(items: seq<Item<D>>, key: string)
    ensures Lookup(items, key) == None <==> !HasKey(items, key)
  {
    if items != [] {
      LookupNone(items[1..], key);
      if HasKey(items, key) && items[0].key != key {
        var i :| 0 <= i < |items| && items[i].key == key;
        assert items[1..][i - 1].key == key;
      }
      if HasKey(items[1..], key) {
        var i :| 0 <= i < |items[1..]| && items[1..][i].key == key;
        assert items[i + 1].key == key;
      }
    }
  }

  /** Setting a key replaces its value where it stands, or puts a new item in front. */
  function Put<D>(items: seq<Item<D>>, key: string, value: Value<D>): seq<Item<D>> {
    if HasKey(items, key) then Replace(items, key, value) else [Item(key, value)] + items
  }

  function Replace<D>(items: seq<Item<D>>, key: string, value: Value<D>): (r: seq<Item<D>>)
    ensures |r| == |items|
    ensures DistinctKeys(items) ==> forall i :: 0 <= i < |r| ==> r[i] == if items[i].key == key then Item(key, value) else items[i]
  {
    if items == [] then []
    else if items[0].key == key then [Item(key, value)] + items[1..]
    else [items[0]] + Replace(items[1..], key, value)
  }

  /** Afterwards the key has the value, and every other key what it had. */
  lemma PutMeaning<D>(items: seq<Item<D>>, key: string, value: Value<D>, other: string)
    requires DistinctKeys(items)
    ensures DistinctKeys(Put(items, key, value))
    ensures Lookup(Put(items, key, value), other) == if other == key then Some(value) else Lookup(items, other)
  {
    hide Lookup, Replace;
    var after := Put(items, key, value);
    if HasKey(items, key) {
      var at :| 0 <= at < |items| && items[at].key == key;
      assert after[at] == Item(key, value);
    } else {
      assert after[0] == Item(key, value);
    }
    LookupMeaning(after, key, value);
    if other != key {
      LookupNone(after, other);
      LookupNone(items, other);
      if HasKey(items, other) {
        var i :| 0 <= i < |items| && items[i].key == other;
        assert after[if HasKey(items, key) then i else i + 1] == items[i];
      }
      if HasKey(after, other) {
        var i :| 0 <= i < |after| && after[i].key == other;
        LookupMeaning(after, other, after[i].value);
        LookupMeaning(items, other, after[i].value);
      }
    }
  }

  // ---------------------------------------------------------------- files

  /** How much of the text one `fgets` into a buffer of `LINE_SIZE` takes. */
  function LineLength(text: string): (n: nat)
    ensures n <= |text| && n < LINE_SIZE && (text != [] ==> n > 0)
  {
    var e := IndexOf(text, '\n');
    var n := if e < |text| then e + 1 else e;
    if n < LINE_SIZE then n else LINE_SIZE - 1
  }

  function Lines(text: string): seq<string> {
    if text == [] then [] else [text[..LineLength(text)]] + Lines(text[LineLength(text)..])
  }

  /** At most the last character ends the line. */
  ghost predicate OneLine(l: string) {
    forall i :: 0 <= i < |l| - 1 ==> l[i] != '\n'
  }

  lemma {:induction false} LinesAreLines(text: string)
    ensures forall l <- Lines(text) :: OneLine(l)
  {
    if text != [] {
      LinesAreLines(text[LineLength(text)..]);
      var l, e := text[..LineLength(text)], IndexOf(text, '\n');
      forall i | 0 <= i < |l| - 1
        ensures l[i] != '\n'
      {
        assert text[..e][i] == l[i];
      }
    }
  }

  function Joined(pieces: seq<string>): string {
    if pieces == [] then [] else pieces[0] + Joined(pieces[1..])
  }

  /** The pieces make up the text. */
  lemma {:induction false} LinesJoin(text: string)
    ensures Joined(Lines(text)) == text
  {
    if text != [] {
      hide LineLength;
      var n := LineLength(text);
      LinesJoin(text[n..]);
      assert Lines(text)[1..] == Lines(text[n..]);
    }
  }

  /** A piece is not empty and ends at a newline, or is as long as the buffer takes, or is the last. */
  lemma {:induction false} LinesMeaning(text: string)
    ensures forall i :: 0 <= i < |Lines(text)| ==> 1 <= |Lines(text)[i]| <= 1023
    ensures forall i :: 0 <= i < |Lines(text)| - 1 ==> var l := Lines(text)[i]; l[|l| - 1] == '\n' || |l| == 1023
  {
    if text != [] {
      hide LineLength;
      var n := LineLength(text);
      var l, rest := text[..n], text[n..];
      LinesMeaning(rest);
      assert Lines(text) == [l] + Lines(rest);
      if rest == [] {
        assert Lines(rest) == [];
      } else {
        LineEnds(text);
      }
    }
  }

  lemma LineEnds(text: string)
    requires LineLength(text) < |text|
    ensures var l := text[..LineLength(text)]; l[|l| - 1] == '\n' || |l| == 1023
  {
  }

  lemma LinesOf(l: string, rest: string)
    requires l != [] && OneLine(l) && l[|l| - 1] == '\n' && |l| < LINE_SIZE
    ensures Lines(l + rest) == [l] + Lines(rest)
  {
    var text, n := l + rest, |l| - 1;
    assert text[n] == '\n';
    forall c <- text[..n]
      ensures c != '\n'
    {
      var i :| 0 <= i < n && text[..n][i] == c;
      assert l[i] == c;
    }
    FirstAt(text, '\n', n);
    assert text[..|l|] == l && text[|l|..] == rest;
  }

  function Store<D>(doubles: Doubles<D>, items: seq<Item<D>>, line: string): seq<Item<D>> {
    match Pair(line)
    case Some((key, value)) => Put(items, key, Infer(doubles, value))
    case None => items
  }

  function Load<D>(doubles: Doubles<D>, lines: seq<string>, items: seq<Item<D>>): seq<Item<D>> {
    if lines == [] then items else Load(doubles, lines[1..], Store(doubles, items, lines[0]))
  }

  /** The line sets the key. */
  predicate Defines(line: string, key: string) {
    Pair(line).Some? && Pair(line).value.0 == key
  }

  lemma {:induction false} LoadFront<D>(doubles: Doubles<D>, lines: seq<string>, items: seq<Item<D>>)
    requires lines != []
    ensures var n := |lines| - 1; Load(doubles, lines, items) == Store(doubles, Load(doubles, lines[..n], items), lines[n])
  {
    hide Store;
    var n := |lines| - 1;
    if n > 0 {
      LoadFront(doubles, lines[1..], Store(doubles, items, lines[0]));
      assert lines[1..][..n - 1] == lines[..n][1..];
    } else {
      assert lines[1..] == [] && lines[..0] == [];
    }
  }

  lemma {:induction false} LoadedKeys<D>(doubles: Doubles<D>, lines: seq<string>)
    ensures DistinctKeys(Load(doubles, lines, []))
  {
    hide Load, Store, DistinctKeys;
    if lines == [] {
      NothingToLoad(doubles);
    } else {
      var n := |lines| - 1;
      LoadedKeys(doubles, lines[..n]);
      LoadFront(doubles, lines, []);
      StoreMeaning(doubles, Load(doubles, lines[..n], []), lines[n], "");
    }
  }

  lemma NothingToLoad<D>(doubles: Doubles<D>)
    ensures Load(doubles, [], []) == [] && DistinctKeys<D>([])
  {
  }

  lemma StoreMeaning<D>(doubles: Doubles<D>, items: seq<Item<D>>, line: string, key: string)
    requires DistinctKeys(items)
    ensures DistinctKeys(Store(doubles, items, line))
    ensures Lookup(Store(doubles, items, line), key) ==
      if Defines(line, key) then Some(Infer(doubles, Pair(line).value.1)) else Lookup(items, key)
  {
    hide Pair, Infer, Put, DistinctKeys, Lookup;
    if Pair(line).Some? {
      var (k, v) := Pair(line).value;
      PutMeaning(items, k, Infer(doubles, v), key);
    }
  }

  /** After loading, a key has the value of the last line that sets it. */
  lemma {:induction false} LastLineWins<D>(doubles: Doubles<D>, lines: seq<string>, key: string, i: nat)
    requires i < |lines| && Defines(lines[i], key) && forall j :: i < j < |lines| ==> !Defines(lines[j], key)
    ensures Lookup(Load(doubles, lines, []), key) == Some(Infer(doubles, Pair(lines[i]).value.1))
  {
    hide Load, Store, Infer, Lookup;
    var n := |lines| - 1;
    LoadedKeys(doubles, lines[..n]);
    LoadFront(doubles, lines, []);
    StoreMeaning(doubles, Load(doubles, lines[..n], []), lines[n], key);
    if i < n {
      LastLineWins(doubles, lines[..n], key, i);
    }
  }

  /** And no value if none does. */
  lemma {:induction false} UnsetKey<D>(doubles: Doubles<D>, lines: seq<string>, key: string)
    requires forall i :: 0 <= i < |lines| ==> !Defines(lines[i], key)
    ensures Lookup(Load(doubles, lines, []), key) == None
  {
    if lines == [] {
      NothingToLoad(doubles);
    } else {
      hide Load, Store, Infer, Lookup, Defines;
      var n := |lines| - 1;
      LoadedKeys(doubles, lines[..n]);
      LoadFront(doubles, lines, []);
      StoreMeaning(doubles, Load(doubles, lines[..n], []), lines[n], key);
      UnsetKey(doubles, lines[..n], key);
    }
  }

  /** The time stamp, as `ctime` prints it. */
  type Stamp = s: string | |s| == 24 && '\n' !in s witness "Thu Jan  1 00:00:00 1970"

  function Body<D>(doubles: Doubles<D>, items: seq<Item<D>>): string {
    if items == [] then [] else SavedLine(doubles, items[0]) + Body(doubles, items[1..])
  }

  function SavedLine<D>(doubles: Doubles<D>, item: Item<D>): string {
    item.key + " = " + Show(doubles, item.value) + "\n"
  }

  const TITLE: string := "# XSAN Configuration File\n"

  function StampLine(stamp: Stamp): string {
    "# Generated at " + stamp + "\n"
  }

  lemma SaveParts<D>(doubles: Doubles<D>, items: seq<Item<D>>, stamp: Stamp)
    ensures Save(doubles, items, stamp) == TITLE + StampLine(stamp) + "\n" + "\n" + Body(doubles, items)
  {
    hide StampLine, Body;
  }

  function Save<D>(doubles: Doubles<D>, items: seq<Item<D>>, stamp: Stamp): string {
    TITLE + (StampLine(stamp) + ("\n" + ("\n" + Body(doubles, items))))
  }

  ghost predicate Clean<D>(doubles: Doubles<D>, item: Item<D>) {
    && GoodKey(item.key) && '\n' !in item.key
    && var t := Show(doubles, item.value); GoodValue(t) && '\n' !in t
  }

  /** What a file keeps of an item: the exact condition. */
  ghost predicate Storable<D>(doubles: Doubles<D>, item: Item<D>) {
    GoodKey(item.key) && '\n' !in item.key && Kept(doubles, item.value)
  }

  function Guessed<D>(doubles: Doubles<D>, items: seq<Item<D>>): (r: seq<Item<D>>)
    ensures |r| == |items|
    ensures forall i :: 0 <= i < |r| ==> r[i] == Item(items[i].key, Infer(doubles, Show(doubles, items[i].value)))
  {
    if items == [] then []
    else [Item(items[0].key, Infer(doubles, Show(doubles, items[0].value)))] + Guessed(doubles, items[1..])
  }

  lemma SavedLineReads<D>(doubles: Doubles<D>, item: Item<D>)
    requires Clean(doubles, item)
    ensures var l := SavedLine(doubles, item);
      && OneLine(l) && l != [] && l[|l| - 1] == '\n' && |l| < LINE_SIZE
      && Pair(l) == Some((item.key, Show(doubles, item.value)))
  {
    hide Pair, GoodKey, GoodValue, Show;
    var k, v := item.key, Show(doubles, item.value);
    Sizes(k, v);
    PairOf([], k, " ", " ", v, "\n");
    assert [] + k + " " + "=" + " " + v + "\n" == k + " = " + v + "\n";
  }

  lemma Sizes(k: string, v: string)
    requires GoodKey(k) && GoodValue(v)
    ensures |k| < KEY_SIZE && |v| < VALUE_SIZE
  {
  }

  /** Loading the lines of clean items adds them one by one in front, each with the type its text looks like. */
  lemma {:induction false} LoadBody<D>(doubles: Doubles<D>, items: seq<Item<D>>, onto: seq<Item<D>>)
    requires DistinctKeys(items) && forall i :: 0 <= i < |items| ==> Clean(doubles, items[i]) && !HasKey(onto, items[i].key)
    ensures Load(doubles, Lines(Body(doubles, items)), onto) == Reversed(Guessed(doubles, items)) + onto
  {
    if items != [] {
      hide SavedLine, Clean, Infer, Lines, Load, Store;
      var first, rest := items[0], items[1..];
      var l, g := SavedLine(doubles, first), Item(first.key, Infer(doubles, Show(doubles, first.value)));
      StoreSaved(doubles, first, onto);
      LoadLine(doubles, l, Body(doubles, rest), onto);
      FrontKeys(items, onto, g);
      assert forall i :: 0 <= i < |rest| ==> rest[i] == items[i + 1];
      LoadBody(doubles, rest, [g] + onto);
      GuessedStep(doubles, items, onto);
    }
  }

  lemma LoadLine<D>(doubles: Doubles<D>, l: string, rest: string, onto: seq<Item<D>>)
    requires l != [] && OneLine(l) && l[|l| - 1] == '\n' && |l| < LINE_SIZE
    ensures Load(doubles, Lines(l + rest), onto) == Load(doubles, Lines(rest), Store(doubles, onto, l))
  {
    hide Store, Lines;
    LinesOf(l, rest);
    assert ([l] + Lines(rest))[1..] == Lines(rest);
  }

  lemma StoreSaved<D>(doubles: Doubles<D>, item: Item<D>, onto: seq<Item<D>>)
    requires Clean(doubles, item) && !HasKey(onto, item.key)
    ensures var l := SavedLine(doubles, item);
      && OneLine(l) && l != [] && l[|l| - 1] == '\n' && |l| < LINE_SIZE
      && Store(doubles, onto, l) == [Item(item.key, Infer(doubles, Show(doubles, item.value)))] + onto
  {
    hide SavedLine, Clean, Infer, Pair;
    SavedLineReads(doubles, item);
  }

  lemma FrontKeys<D>(items: seq<Item<D>>, onto: seq<Item<D>>, g: Item<D>)
    requires items != [] && DistinctKeys(items) && g.key == items[0].key
    requires forall i :: 0 <= i < |items| ==> !HasKey(onto, items[i].key)
    ensures DistinctKeys(items[1..])
    ensures forall i :: 1 <= i < |items| ==> !HasKey([g] + onto, items[i].key)
  {
    forall i | 1 <= i < |items|
      ensures !HasKey([g] + onto, items[i].key)
    {
      assert !HasKey(onto, items[i].key);
    }
  }

  lemma GuessedStep<D>(doubles: Doubles<D>, items: seq<Item<D>>, onto: seq<Item<D>>)
    requires items != []
    ensures var g := Item(items[0].key, Infer(doubles, Show(doubles, items[0].value)));
      Reversed(Guessed(doubles, items)) + onto == Reversed(Guessed(doubles, items[1..])) + ([g] + onto)
  {
    hide Infer, Show;
    var guessed := Guessed(doubles, items);
    assert guessed[1..] == Guessed(doubles, items[1..]);
  }

  lemma HeaderIsSkipped<D>(doubles: Doubles<D>, items: seq<Item<D>>, stamp: Stamp)
    ensures Load(doubles, Lines(Save(doubles, items, stamp)), []) == Load(doubles, Lines(Body(doubles, items)), [])
  {
    hide Lines, Load;
    var body := Body(doubles, items);
    var s := StampLine(stamp);
    assert s[0] == '#' && TITLE[0] == '#';
    Skip(doubles, TITLE, s + ("\n" + ("\n" + body)));
    Skip(doubles, s, "\n" + ("\n" + body));
    assert SkipSpace("\n") == [];
    Skip(doubles, "\n", "\n" + body);
    Skip(doubles, "\n", body);
  }

  lemma Skip<D>(doubles: Doubles<D>, l: string, rest: string)
    requires l != [] && OneLine(l) && l[|l| - 1] == '\n' && |l| < LINE_SIZE
    requires l[0] == '#' || SkipSpace(l) == []
    ensures Load(doubles, Lines(l + rest), []) == Load(doubles, Lines(rest), [])
  {
    hide Lines, Load;
    LoadLine(doubles, l, rest, []);
    assert Pair(l) == None;
  }

  /** What a file gives back, for any clean items. */
  lemma LoadSave<D>(doubles: Doubles<D>, items: seq<Item<D>>, stamp: Stamp)
    requires DistinctKeys(items) && forall i :: 0 <= i < |items| ==> Clean(doubles, items[i])
    ensures Load(doubles, Lines(Save(doubles, items, stamp)), []) == Reversed(Guessed(doubles, items))
  {
    HeaderIsSkipped(doubles, items, stamp);
    LoadBody(doubles, items, []);
  }

  // ---------------------------------------------------------------- what a file can give back at all

  /** The items that loading produces, whatever the text. */
  ghost predicate Loadable<D>(doubles: Doubles<D>, item: Item<D>) {
    && GoodKey(item.key) && '\n' !in item.key
    && InRange(item.value) && (item.value.Double? || Kept(doubles, item.value))
  }

  lemma PairIsClean(line: string)
    requires OneLine(line) && Pair(line).Some?
    ensures var (k, v) := Pair(line).value; GoodKey(k) && '\n' !in k && GoodValue(v) && '\n' !in v
  {
    hide Pair;
    var a, b, c, d := PairSplits(line);
    var (k, v) := Pair(line).value;
    forall i | 0 <= i < |k|
      ensures k[i] != '\n'
    {
      assert line[|a| + i] == k[i];
    }
    var left := a + k + b + "=" + c;
    assert line == left + v + d;
    forall i | 0 <= i < |v|
      ensures v[i] != '\n'
    {
      assert line[|left| + i] == v[i];
      assert IsSpace('\n');
    }
  }

  lemma InferIsKept<D>(doubles: Doubles<D>, s: string)
    requires GoodValue(s) && '\n' !in s
    ensures var v := Infer(doubles, s); InRange(v) && (v.Double? || Kept(doubles, v))
  {
  }

  lemma {:induction false} LoadedIsLoadable<D>(doubles: Doubles<D>, lines: seq<string>, items: seq<Item<D>>)
    requires forall l <- lines :: OneLine(l)
    requires DistinctKeys(items) && forall i :: 0 <= i < |items| ==> Loadable(doubles, items[i])
    ensures var r := Load(doubles, lines, items); DistinctKeys(r) && forall i :: 0 <= i < |r| ==> Loadable(doubles, r[i])
  {
    if lines != [] {
      StoredIsLoadable(doubles, lines[0], items);
      LoadedIsLoadable(doubles, lines[1..], Store(doubles, items, lines[0]));
    }
  }

  lemma StoredIsLoadable<D>(doubles: Doubles<D>, line: string, items: seq<Item<D>>)
    requires OneLine(line)
    requires DistinctKeys(items) && forall i :: 0 <= i < |items| ==> Loadable(doubles, items[i])
    ensures var r := Store(doubles, items, line); DistinctKeys(r) && forall i :: 0 <= i < |r| ==> Loadable(doubles, r[i])
  {
    hide Pair, Infer, Loadable, OneLine, Replace;
    if Pair(line).Some? {
      var (k, v) := Pair(line).value;
      NewIsLoadable(doubles, line);
      PutMeaning(items, k, Infer(doubles, v), k);
    }
  }

  lemma NewIsLoadable<D>(doubles: Doubles<D>, line: string)
    requires OneLine(line) && Pair(line).Some?
    ensures var (k, v) := Pair(line).value; Loadable(doubles, Item(k, Infer(doubles, v)))
  {
    hide Pair, Infer, Kept;
    PairIsClean(line);
    InferIsKept(doubles, Pair(line).value.1);
  }

  lemma LoadableIsClean<D(!new)>(doubles: Doubles<D>, item: Item<D>)
    requires Standard(doubles) && Loadable(doubles, item)
    ensures Clean(doubles, item)
  {
    if item.value.Double? {
      assert GoodValue(doubles.show(item.value.d));
    } else {
      ShowInfer(doubles, item.value);
    }
  }

  // ---------------------------------------------------------------- the round trip

  ghost predicate SameLookups<D>(a: seq<Item<D>>, b: seq<Item<D>>) {
    forall key :: Lookup(a, key) == Lookup(b, key)
  }

  /** Saving and loading storable items gives them back, newest last. */
  lemma Reloaded<D(!new)>(doubles: Doubles<D>, items: seq<Item<D>>, stamp: Stamp)
    requires Standard(doubles) && DistinctKeys(items)
    requires forall i :: 0 <= i < |items| ==> InRange(items[i].value) && Storable(doubles, items[i])
    ensures Load(doubles, Lines(Save(doubles, items, stamp)), []) == Reversed(items)
    ensures SameLookups(Reversed(items), items)
  {
    hide Show, Infer, Kept, InRange, Standard, Lines, Save, Load, Lookup;
    forall i | 0 <= i < |items|
      ensures Clean(doubles, items[i]) && Infer(doubles, Show(doubles, items[i].value)) == items[i].value
    {
      ShowInfer(doubles, items[i].value);
    }
    LoadSave(doubles, items, stamp);
    assert Guessed(doubles, items) == items;
    ReversedLookups(items);
  }

  lemma ReversedLookups<D>(items: seq<Item<D>>)
    requires DistinctKeys(items)
    ensures DistinctKeys(Reversed(items)) && SameLookups(Reversed(items), items)
  {
    hide Lookup;
    var r, n := Reversed(items), |items|;
    forall key
      ensures Lookup(r, key) == Lookup(items, key)
    {
      LookupNone(items, key);
      LookupNone(r, key);
      if HasKey(r, key) {
        var i :| 0 <= i < n && r[i].key == key;
        assert items[n - 1 - i].key == key;
      }
      if HasKey(items, key) {
        var i :| 0 <= i < n && items[i].key == key;
        assert r[n - 1 - i] == items[i] == Item(key, items[i].value);
        LookupMeaning(items, key, items[i].value);
        LookupMeaning(r, key, items[i].value);
      }
    }
  }

  /** Every lookup survives saving and loading exactly when every item is storable. */
  lemma RoundTripIff<D(!new)>(doubles: Doubles<D>, items: seq<Item<D>>, stamp: Stamp)
    requires Standard(doubles) && DistinctKeys(items) && forall i :: 0 <= i < |items| ==> InRange(items[i].value)
    ensures SameLookups(Load(doubles, Lines(Save(doubles, items, stamp)), []), items)
        <==> forall i :: 0 <= i < |items| ==> Storable(doubles, items[i])
  {
    hide Storable, Standard, InRange, Lines, Save, Load, SameLookups;
    if forall i :: 0 <= i < |items| ==> Storable(doubles, items[i]) {
      Reloaded(doubles, items, stamp);
    }
    if SameLookups(Load(doubles, Lines(Save(doubles, items, stamp)), []), items) {
      KeptIsStorable(doubles, items, stamp);
    }
  }

  lemma KeptIsStorable<D(!new)>(doubles: Doubles<D>, items: seq<Item<D>>, stamp: Stamp)
    requires Standard(doubles) && DistinctKeys(items)
    requires SameLookups(Load(doubles, Lines(Save(doubles, items, stamp)), []), items)
    ensures forall i :: 0 <= i < |items| ==> Storable(doubles, items[i])
  {
    hide Lookup, Loadable, Clean, Standard, Lines, Save, Load, Show, Infer, OneLine, SameLookups, DistinctKeys, Storable;
    var text := Save(doubles, items, stamp);
    var loaded := Load(doubles, Lines(text), []);
    LinesAreLines(text);
    LoadedIsLoadable(doubles, Lines(text), []);
    forall i | 0 <= i < |items|
      ensures Loadable(doubles, items[i]) && Clean(doubles, items[i])
    {
      Found(items, loaded, i);
      LoadableIsClean(doubles, items[i]);
    }
    LoadSave(doubles, items, stamp);
    forall i | 0 <= i < |items|
      ensures Storable(doubles, items[i])
    {
      Found(items, loaded, i);
      GuessedRight(doubles, items, i);
      LoadableStorable(doubles, items[i]);
    }
  }

  /** An item among the guesses was guessed right. */
  lemma GuessedRight<D>(doubles: Doubles<D>, items: seq<Item<D>>, i: nat)
    requires DistinctKeys(items) && i < |items| && items[i] in Reversed(Guessed(doubles, items))
    ensures Infer(doubles, Show(doubles, items[i].value)) == items[i].value
  {
    hide Infer, Show, Guessed, Reversed, DistinctKeys;
    var guessed := Guessed(doubles, items);
    var j :| 0 <= j < |items| && Reversed(guessed)[j] == items[i];
    var k := |items| - 1 - j;
    assert guessed[k] == items[i] && items[k].key == items[i].key;
    assert k == i by {
      KeyPlace(items, i, k);
    }
  }

  lemma KeyPlace<D>(items: seq<Item<D>>, i: nat, j: nat)
    requires DistinctKeys(items) && i < |items| && j < |items| && items[i].key == items[j].key
    ensures i == j
  {
  }

  lemma Found<D>(items: seq<Item<D>>, loaded: seq<Item<D>>, i: nat)
    requires DistinctKeys(items) && DistinctKeys(loaded) && SameLookups(loaded, items) && i < |items|
    ensures items[i] in loaded
  {
    var item := items[i];
    LookupMeaning(items, item.key, item.value);
    LookupMeaning(loaded, item.key, item.value);
    assert Item(item.key, item.value) == item;
  }

  lemma LoadableStorable<D>(doubles: Doubles<D>, item: Item<D>)
    requires Loadable(doubles, item) && Infer(doubles, Show(doubles, item.value)) == item.value
    ensures Storable(doubles, item)
  {
  }

  /** Among any clean items, a long comes back as a long when it needs the width, and as an int when it does not. */
  lemma LongComesBackByRange<D>(doubles: Doubles<D>, items: seq<Item<D>>, stamp: Stamp, i: nat)
    requires DistinctKeys(items) && forall j :: 0 <= j < |items| ==> Clean(doubles, items[j])
    requires i < |items| && items[i].value.Long? && InRange(items[i].value)
    ensures var n := items[i].value.l;
      Lookup(Load(doubles, Lines(Save(doubles, items, stamp)), []), items[i].key) ==
        Some(if INT_MIN <= n <= INT_MAX then Int(n) else Long(n))
  {
    hide Lines, Save, Load, Lookup, ScanLong, Clean, Guessed;
    var guessed, n := Guessed(doubles, items), items[i].value.l;
    ScanDecimal(n);
    LoadSave(doubles, items, stamp);
    GuessedKeys(doubles, items);
    ReversedLookups(guessed);
    assert guessed[i] == Item(items[i].key, if INT_MIN <= n <= INT_MAX then Int(n) else Long(n));
    LookupMeaning(guessed, items[i].key, guessed[i].value);
  }

  lemma GuessedKeys<D>(doubles: Doubles<D>, items: seq<Item<D>>)
    requires DistinctKeys(items)
    ensures DistinctKeys(Guessed(doubles, items))
  {
    hide Guessed, Infer, Show;
  }

  /** For example 5: `xsan_config_get_long` no longer finds it. */
  lemma SmallLongIsLost<D>(doubles: Doubles<D>, stamp: Stamp)
    ensures var items: seq<Item<D>> := [Item("n", Long(5))];
      Lookup(Load(doubles, Lines(Save(doubles, items, stamp)), []), "n") == Some(Int(5))
  {
    hide Lines, Save, Load, ScanLong;
    var items: seq<Item<D>> := [Item("n", Long(5))];
    ScanDecimal(5);
    LongComesBackByRange(doubles, items, stamp, 0);
  }

  // ---------------------------------------------------------------- the store

  class Settings<D(==)> {
    const doubles: Doubles<D>
    var items: seq<Item<D>>
    var itemCount: nat

    ghost predicate Valid()
      reads this
    {
      DistinctKeys(items) && itemCount == |items|
    }

    constructor (doubles: Doubles<D>)
      ensures Valid() && items == [] && this.doubles == doubles
    {
      this.doubles, items, itemCount := doubles, [], 0;
    }

    /** `find_config_item`: the item with this key, if there is one. */
    method FindItem(key: string) returns (at: Option<nat>)
      requires Valid()
      ensures at.None? ==> !HasKey(items, key) && Lookup(items, key) == None
      ensures at.Some? ==> at.value < |items| && items[at.value].key == key && Lookup(items, key) == Some(items[at.value].value)
    {
      var i := 0;
      while i < |items|
        invariant i <= |items| && forall j :: 0 <= j < i ==> items[j].key != key
      {
        if items[i].key == key {
          LookupMeaning(items, key, items[i].value);
          return Some(i);
        }
        i := i + 1;
      }
      LookupNone(items, key);
      return None;
    }

    /** `set_config_item`: afterwards the key has the value, and every other key what it had. */
    method SetItem(key: string, value: Value<D>)
      requires Valid()
      modifies this
      ensures Valid() && items == Put(old(items), key, value)
      ensures forall k :: Lookup(items, k) == if k == key then Some(value) else Lookup(old(items), k)
    {
      var at := FindItem(key);
      ghost var was := items;
      if at.Some? {
        items := items[at.value := Item(key, value)];
        assert items == Replace(was, key, value);
      } else {
        items := [Item(key, value)] + items;
        itemCount := itemCount + 1;
      }
      forall k
        ensures DistinctKeys(items) && Lookup(items, k) == if k == key then Some(value) else Lookup(was, k)
      {
        PutMeaning(was, key, value, k);
      }
    }

    /** `xsan_config_remove_key`: the key is gone, and every other key has what it had. */
    method RemoveKey(key: string) returns (found: bool)
      requires Valid()
      modifies this
      ensures Valid() && found == HasKey(old(items), key)
      ensures forall k :: Lookup(items, k) == if k == key then None else Lookup(old(items), k)
      ensures itemCount == if found then old(itemCount) - 1 else old(itemCount)
    {
      var at := FindItem(key);
      if at.None? {
        return false;
      }
      found := true;
      ghost var was := items;
      items := items[..at.value] + items[at.value + 1..];
      itemCount := itemCount - 1;
      forall k
        ensures Lookup(items, k) == if k == key then None else Lookup(was, k)
      {
        WithoutMeaning(was, at.value, k);
      }
    }

    /** `xsan_config_clear`. */
    method Clear()
      modifies this
      ensures Valid() && items == []
    {
      items, itemCount := [], 0;
    }

    /** `xsan_config_load_from_file`, on the file's text. */
    method LoadFromText(text: string)
      modifies this
      ensures Valid() && items == Load(doubles, Lines(text), [])
    {
      hide LineLength, Infer, Pair;
      Clear();
      var rest := text;
      while rest != []
        invariant Valid() && Load(doubles, Lines(rest), items) == Load(doubles, Lines(text), [])
        decreases |rest|
      {
        var n := LineLength(rest);
        var pair := ParseConfigLine(rest[..n]);
        ghost var lines := Lines(rest);
        assert lines[0] == rest[..n] && lines[1..] == Lines(rest[n..]);
        if pair.Some? {
          SetItem(pair.value.0, Infer(doubles, pair.value.1));
        }
        rest := rest[n..];
      }
    }

    /** `xsan_config_save_to_file`: the text written. */
    method SaveToText(stamp: Stamp) returns (text: string)
      requires Valid()
      ensures text == Save(doubles, items, stamp)
    {
      hide SavedLine, StampLine, Save;
      text := TITLE + StampLine(stamp) + "\n" + "\n";
      ghost var head := text;
      var i := 0;
      assert items[0..] == items;
      while i < |items|
        invariant i <= |items| && text + Body(doubles, items[i..]) == head + Body(doubles, items)
      {
        assert items[i..][1..] == items[i + 1..];
        text := text + SavedLine(doubles, items[i]);
        i := i + 1;
      }
      SaveParts(doubles, items, stamp);
    }

    /** `xsan_config_get_int`; the other getters differ only in the type they ask for. */
    method GetInt(key: string, default: int) returns (n: int)
      requires Valid()
      ensures n == match Lookup(items, key) case Some(Int(v)) => v case _ => default
    {
      var at := FindItem(key);
      if at.Some? && items[at.value].value.Int? {
        return items[at.value].value.n;
      }
      return default;
    }
  }

  lemma WithoutMeaning<D>(items: seq<Item<D>>, i: nat, other: string)
    requires DistinctKeys(items) && i < |items|
    ensures var r := items[..i] + items[i + 1..];
      DistinctKeys(r) && Lookup(r, other) == if other == items[i].key then None else Lookup(items, other)
  {
    hide Lookup, HasKey;
    var r := items[..i] + items[i + 1..];
    RestKeys(items, i, other);
    LookupNone(r, other);
    LookupNone(items, other);
    if HasKey(r, other) {
      var j := KeyAt(r, other);
      assert r[j] == items[if j < i then j else j + 1];
      LookupMeaning(r, other, r[j].value);
      LookupMeaning(items, other, r[j].value);
    }
  }

  lemma KeyAt<D>(items: seq<Item<D>>, key: string) returns (j: nat)
    requires HasKey(items, key)
    ensures j < |items| && items[j].key == key
  {
    j :| 0 <= j < |items| && items[j].key == key;
  }

  lemma RestKeys<D>(items: seq<Item<D>>, i: nat, key: string)
    requires DistinctKeys(items) && i < |items|
    ensures var r := items[..i] + items[i + 1..]; HasKey(r, key) <==> HasKey(items, key) && key != items[i].key
  {
    var r := items[..i] + items[i + 1..];
    if HasKey(r, key) {
      var j := KeyAt(r, key);
      assert r[j] == items[if j < i then j else j + 1];
    }
    if HasKey(items, key) && key != items[i].key {
      var j := KeyAt(items, key);
      assert r[if j < i then j else j - 1] == items[j];
    }
  }
}
