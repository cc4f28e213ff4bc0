/**
 * The body of `getNewsGroupList` and `completeGroupInfo` in src/nntp.ts
 * (lines 78-88 and 98-113): the LIST NEWSGROUPS lines seed a dictionary of
 * partial group records, the LIST ACTIVE lines set watermarks on existing
 * entries, and every entry is completed with defaults.
 */
module NntpGroupList {
  import opened Wrappers
  import opened JsString
  import opened JsNumber

  /** A newsgroup record, with the fields src/nntp.ts:80-85 gives it. */
  datatype GroupInfo = GroupInfo(name: string, description: string, lowWater: Number, highWater: Number)

  /** `Partial<GroupInfo>`: each field may be absent. */
  datatype PartialGroupInfo = PartialGroupInfo(
    name: Option<string>,
    description: Option<string>,
    lowWater: Option<Number>,
    highWater: Option<Number>)

  /**
   * The `TypeError` JavaScript raises when an ACTIVE line names a group that
   * has no entry (`groupMap[name]` is undefined); it rejects the whole call.
   * `group` records the name on the ACTIVE line that throws.
   */
  datatype ListError = TypeError(group: string)

  /** The literal that `completeGroupInfo` assigns the partial record onto. */
  const Defaults: GroupInfo := GroupInfo("", "", Num(-1), Num(-1))

  /**
   * `completeGroupInfo(obj)`: `Object.assign` onto the defaults, so every
   * field present in `obj` wins and every absent one keeps its default.
   */
  function CompleteGroupInfo(obj: PartialGroupInfo): (g: GroupInfo)
    ensures g.name == if obj.name.Some? then obj.name.value else Defaults.name
    ensures g.description == if obj.description.Some? then obj.description.value else Defaults.description
    ensures g.lowWater == if obj.lowWater.Some? then obj.lowWater.value else Defaults.lowWater
    ensures g.highWater == if obj.highWater.Some? then obj.highWater.value else Defaults.highWater
  {
    GroupInfo(
      obj.name.GetOr(Defaults.name),
      obj.description.GetOr(Defaults.description),
      obj.lowWater.GetOr(Defaults.lowWater),
      obj.highWater.GetOr(Defaults.highWater))
  }

  /** A complete record seen as a partial one, with every field present. */
  function AsPartial(g: GroupInfo): PartialGroupInfo
  {
    PartialGroupInfo(Some(g.name), Some(g.description), Some(g.lowWater), Some(g.highWater))
  }

  /** Completing a record that lacks nothing gives it back; completing an empty one gives the defaults. */
  lemma CompleteGroupInfoRoundTrip(g: GroupInfo)
    ensures CompleteGroupInfo(AsPartial(g)) == g
    ensures CompleteGroupInfo(PartialGroupInfo(None, None, None, None)) == Defaults
  {
  }

  /** The key of a LIST NEWSGROUPS line: `val.substring(0, val.indexOf(" "))`. */
  function NewsgroupKey(line: string): string
  {
    Substring(line, 0, IndexOf(line, " "))
  }

  /** The description of a LIST NEWSGROUPS line: `val.substring(val.indexOf(" ") + 1)`. */
  function NewsgroupDescription(line: string): string
  {
    Substring(line, IndexOf(line, " ") + 1, |line|)
  }

  /** The record a LIST NEWSGROUPS line stores: only a description. */
  function DescriptionOnly(description: string): PartialGroupInfo
  {
    PartialGroupInfo(None, Some(description), None, None)
  }

  /**
   * A line with a space is cut at its first space into a space-free key and
   * the rest; a line without one has the empty key and is all description.
   */
  lemma NewsgroupEntry(line: string)
    ensures Contains(line, " ") ==>
      NewsgroupKey(line) + " " + NewsgroupDescription(line) == line && !Contains(NewsgroupKey(line), " ")
    ensures !Contains(line, " ") ==> NewsgroupKey(line) == "" && NewsgroupDescription(line) == line
  {
    if Contains(line, " ") {
      var i := IndexOf(line, " ");
      SplitAround(line, " ", i);
      HeadFree(line, " ");
    }
  }

  /** `Number(tokens[k])`, where a missing token is `undefined` and gives NaN. */
  function TokenNumber(tokens: seq<string>, k: nat): Number
  {
    if k < |tokens| then ToNumber(tokens[k]) else NaN
  }

  /** The three space-separated fields `[name, high, low]` a LIST ACTIVE line is destructured into. */
  datatype ActiveEntry = ActiveEntry(name: string, high: Number, low: Number)

  /** `line.split(" ")`, destructured; a missing field is `undefined`, which `Number` turns into NaN. */
  function ParseActive(line: string): (e: ActiveEntry)
    ensures e.name == Split(line, " ")[0]
    ensures !Contains(line, " ") ==> e == ActiveEntry(line, NaN, NaN)
  {
    var tokens := Split(line, " ");
    SplitSingle(line, " ");
    ActiveEntry(tokens[0], TokenNumber(tokens, 1), TokenNumber(tokens, 2))
  }

  function ParseActiveLines(lines: seq<string>): (es: seq<ActiveEntry>)
    ensures |es| == |lines|
    ensures forall i :: 0 <= i < |lines| ==> es[i] == ParseActive(lines[i])
  {
    seq(|lines|, i requires 0 <= i < |lines| => ParseActive(lines[i]))
  }

  /** The entry of an ACTIVE line, given the line's space-separated tokens. */
  lemma ParseActiveTokens(line: string, tokens: seq<string>)
    requires tokens == Split(line, " ")
    ensures ParseActive(line) == ActiveEntry(tokens[0], TokenNumber(tokens, 1), TokenNumber(tokens, 2))
  {
  }

  /** Four fields joined by single spaces. */
  lemma JoinFour(a: string, b: string, c: string, d: string)
    ensures Join([a, b, c, d], " ") == a + " " + b + " " + c + " " + d
  {
    JoinCons(c, [d], " ");
    JoinCons(b, [c, d], " ");
    JoinCons(a, [b, c, d], " ");
  }

  /** Decimal digits hold no space. */
  lemma DigitsHaveNoSpace(ds: string)
    requires AllDigits(ds, 10)
    ensures ' ' !in ds
  {
    assert !IsDigit(' ', 10);
  }

  /**
   * A LIST ACTIVE line "name high low flag" whose watermarks are runs of
   * decimal digits (zero-padded or not) yields the group name and both
   * watermarks' values, in that order.
   */
  lemma ActiveLineWatermarks(name: string, high: string, low: string, flag: string)
    requires ' ' !in name && ' ' !in flag
    requires |high| > 0 && AllDigits(high, 10) && |low| > 0 && AllDigits(low, 10)
    ensures ParseActive(name + " " + high + " " + low + " " + flag)
      == ActiveEntry(name, Num(DigitsValue(high, 10)), Num(DigitsValue(low, 10)))
  {
    var line := name + " " + high + " " + low + " " + flag;
    DigitsHaveNoSpace(high);
    DigitsHaveNoSpace(low);
    SplitFour(name, high, low, flag);
    ParseActiveTokens(line, [name, high, low, flag]);
    ToNumberDigits(high);
    ToNumberDigits(low);
  }

  /** Four space-free tokens joined by spaces split back into those tokens. */
  lemma SplitFour(a: string, b: string, c: string, d: string)
    requires ' ' !in a && ' ' !in b && ' ' !in c && ' ' !in d
    ensures Split(a + " " + b + " " + c + " " + d, " ") == [a, b, c, d]
  {
    var parts := [a, b, c, d];
    JoinFour(a, b, c, d);
    assert forall k :: 0 <= k < |parts| ==> ' ' !in parts[k];
    SplitJoin(parts, ' ');
  }

  /** The dictionary after the NEWSGROUPS `forEach` (src/nntp.ts:98-102). */
  function NewsgroupsMap(lines: seq<string>): map<string, PartialGroupInfo>
  {
    if lines == [] then map[]
    else
      var line := Last(lines);
      NewsgroupsMap(DropLast(lines))[NewsgroupKey(line) := DescriptionOnly(NewsgroupDescription(line))]
  }

  /** The dictionary after the ACTIVE `forEach` (src/nntp.ts:104-109), or the error it throws. */
  function ApplyActive(m: map<string, PartialGroupInfo>, entries: seq<ActiveEntry>): Result<map<string, PartialGroupInfo>, ListError>
  {
    if entries == [] then Success(m)
    else
      match ApplyActive(m, DropLast(entries))
      case Failure(e) => Failure(e)
      case Success(m') =>
        var e := Last(entries);
        if e.name !in m' then Failure(TypeError(e.name))
        else Success(m'[e.name := m'[e.name].(highWater := Some(e.high), lowWater := Some(e.low))])
  }

  /**
   * What `getNewsGroupList` resolves with for the given (already trimmed)
   * NEWSGROUPS and ACTIVE lines: one completed record per dictionary key.
   * The JavaScript result is the list of these records, without the keys.
   */
  function GroupList(newsLines: seq<string>, activeLines: seq<string>): Result<map<string, GroupInfo>, ListError>
  {
    match ApplyActive(NewsgroupsMap(newsLines), ParseActiveLines(activeLines))
    case Failure(e) => Failure(e)
    case Success(m) => Success(CompleteAll(m))
  }

  /** `Object.entries(groupMap).map(...)`: every partial record completed, under its key. */
  function CompleteAll(m: map<string, PartialGroupInfo>): (r: map<string, GroupInfo>)
    ensures r.Keys == m.Keys
    ensures forall k :: k in m ==> r[k] == CompleteGroupInfo(m[k])
  {
    map k | k in m :: CompleteGroupInfo(m[k])
  }

  /** The keys the NEWSGROUPS lines produce. */
  function NewsgroupKeys(lines: seq<string>): set<string>
  {
    set i | 0 <= i < |lines| :: NewsgroupKey(lines[i])
  }

  /** Line `i` is the last one with its key. */
  predicate LastNewsgroupLine(lines: seq<string>, i: int)
  {
    0 <= i < |lines| && forall j :: i < j < |lines| ==> NewsgroupKey(lines[j]) != NewsgroupKey(lines[i])
  }

  /** Entry `i` is the last ACTIVE entry naming its group. */
  predicate LastActiveEntry(entries: seq<ActiveEntry>, i: int)
  {
    0 <= i < |entries| && forall j :: i < j < |entries| ==> entries[j].name != entries[i].name
  }

  /** Entry `i` is the first ACTIVE entry naming a group that `m` lacks. */
  predicate FirstUnknown(m: map<string, PartialGroupInfo>, entries: seq<ActiveEntry>, i: int)
  {
    0 <= i < |entries| && entries[i].name !in m &&
    forall j :: 0 <= j < i ==> entries[j].name in m
  }

  /** The dictionary has exactly one entry per distinct NEWSGROUPS key. */
  lemma {:induction false} NewsgroupsMapKeys(lines: seq<string>)
    ensures NewsgroupsMap(lines).Keys == NewsgroupKeys(lines)
  {
    if lines != [] {
      var init := DropLast(lines);
      NewsgroupsMapKeys(init);
      assert lines == init + [Last(lines)];
      assert NewsgroupKeys(lines) == NewsgroupKeys(init) + {NewsgroupKey(Last(lines))} by {
        forall k | k in NewsgroupKeys(lines) ensures k in NewsgroupKeys(init) + {NewsgroupKey(Last(lines))} {
          var i :| 0 <= i < |lines| && NewsgroupKey(lines[i]) == k;
          if i < |init| {
            assert init[i] == lines[i];
          }
        }
        forall k | k in NewsgroupKeys(init) ensures k in NewsgroupKeys(lines) {
          var i :| 0 <= i < |init| && NewsgroupKey(init[i]) == k;
          assert lines[i] == init[i];
        }
      }
    }
  }

  /** A later line with the same key overwrites an earlier one: the last line with a key decides its entry. */
  lemma {:induction false} NewsgroupsMapLastWins(lines: seq<string>, i: int)
    requires LastNewsgroupLine(lines, i)
    ensures NewsgroupKey(lines[i]) in NewsgroupsMap(lines)
    ensures NewsgroupsMap(lines)[NewsgroupKey(lines[i])] == DescriptionOnly(NewsgroupDescription(lines[i]))
  {
    var init := DropLast(lines);
    if i < |init| {
      assert init[i] == lines[i];
      assert LastNewsgroupLine(init, i) by {
        forall j | i < j < |init| ensures NewsgroupKey(init[j]) != NewsgroupKey(init[i]) {
          assert init[j] == lines[j];
        }
      }
      NewsgroupsMapLastWins(init, i);
    }
  }

  /** Every record the NEWSGROUPS pass stores carries a description and nothing else. */
  lemma {:induction false} NewsgroupsMapDescriptionOnly(lines: seq<string>, k: string)
    requires k in NewsgroupsMap(lines)
    ensures exists d :: NewsgroupsMap(lines)[k] == DescriptionOnly(d)
  {
    if NewsgroupKey(Last(lines)) != k {
      NewsgroupsMapDescriptionOnly(DropLast(lines), k);
    }
  }

  /** One step of the NEWSGROUPS loop. */
  lemma NewsgroupsStep(lines: seq<string>, i: int)
    requires 0 <= i < |lines|
    ensures NewsgroupsMap(lines[..i + 1]) ==
      NewsgroupsMap(lines[..i])[NewsgroupKey(lines[i]) := DescriptionOnly(NewsgroupDescription(lines[i]))]
  {
    assert DropLast(lines[..i + 1]) == lines[..i];
  }

  /** One step of the ACTIVE loop, on an entry naming an existing group. */
  lemma ApplyActiveStep(m: map<string, PartialGroupInfo>, entries: seq<ActiveEntry>, j: int, gm: map<string, PartialGroupInfo>)
    requires 0 <= j < |entries| && ApplyActive(m, entries[..j]) == Success(gm) && entries[j].name in gm
    ensures ApplyActive(m, entries[..j + 1]) ==
      Success(gm[entries[j].name := gm[entries[j].name].(highWater := Some(entries[j].high), lowWater := Some(entries[j].low))])
  {
    assert DropLast(entries[..j + 1]) == entries[..j];
  }

  /** The ACTIVE loop stopping on an entry naming a missing group: the whole pass fails with that name. */
  lemma ApplyActiveStop(m: map<string, PartialGroupInfo>, entries: seq<ActiveEntry>, j: int, gm: map<string, PartialGroupInfo>)
    requires 0 <= j < |entries| && ApplyActive(m, entries[..j]) == Success(gm) && entries[j].name !in gm
    ensures ApplyActive(m, entries) == Failure(TypeError(entries[j].name))
  {
    assert DropLast(entries[..j + 1]) == entries[..j];
    ApplyActiveFailureSticks(m, entries, j + 1);
  }

  /**
   * The ACTIVE pass succeeds exactly when every entry names an existing
   * group; it then keeps the same keys, and otherwise it fails on the first
   * entry naming a missing one.
   */
  lemma {:induction false} ApplyActiveOutcome(m: map<string, PartialGroupInfo>, entries: seq<ActiveEntry>)
    ensures ApplyActive(m, entries).Success? <==> forall i :: 0 <= i < |entries| ==> entries[i].name in m
    ensures ApplyActive(m, entries).Success? ==> ApplyActive(m, entries).value.Keys == m.Keys
    ensures ApplyActive(m, entries).Failure? ==>
      exists i :: FirstUnknown(m, entries, i) && ApplyActive(m, entries).error == TypeError(entries[i].name)
  {
    if entries != [] {
      var init := DropLast(entries);
      var n := |init|;
      ApplyActiveOutcome(m, init);
      assert forall i :: 0 <= i < n ==> init[i] == entries[i];
      if ApplyActive(m, init).Failure? {
        var i :| FirstUnknown(m, init, i) && ApplyActive(m, init).error == TypeError(init[i].name);
        assert FirstUnknown(m, entries, i);
      } else if entries[n].name !in m {
        assert FirstUnknown(m, entries, n);
      }
    }
  }

  /** The ACTIVE pass changes only watermarks: every record keeps its name and description. */
  lemma {:induction false} ApplyActivePreserves(m: map<string, PartialGroupInfo>, entries: seq<ActiveEntry>, k: string)
    requires ApplyActive(m, entries).Success? && k in m
    ensures k in ApplyActive(m, entries).value
    ensures ApplyActive(m, entries).value[k].name == m[k].name
    ensures ApplyActive(m, entries).value[k].description == m[k].description
  {
    if entries != [] {
      ApplyActivePreserves(m, DropLast(entries), k);
    }
  }

  /** A group that no ACTIVE entry names keeps its record unchanged. */
  lemma {:induction false} ApplyActiveUntouched(m: map<string, PartialGroupInfo>, entries: seq<ActiveEntry>, k: string)
    requires ApplyActive(m, entries).Success? && k in m
    requires forall i :: 0 <= i < |entries| ==> entries[i].name != k
    ensures k in ApplyActive(m, entries).value && ApplyActive(m, entries).value[k] == m[k]
  {
    if entries != [] {
      var init := DropLast(entries);
      assert forall i :: 0 <= i < |init| ==> init[i] == entries[i];
      ApplyActiveUntouched(m, init, k);
    }
  }

  /** The last ACTIVE entry naming a group sets both of its watermarks. */
  lemma {:induction false} ApplyActiveLast(m: map<string, PartialGroupInfo>, entries: seq<ActiveEntry>, i: int)
    requires ApplyActive(m, entries).Success? && LastActiveEntry(entries, i)
    ensures entries[i].name in m && entries[i].name in ApplyActive(m, entries).value
    ensures ApplyActive(m, entries).value[entries[i].name] ==
      m[entries[i].name].(highWater := Some(entries[i].high), lowWater := Some(entries[i].low))
  {
    var init := DropLast(entries);
    var k := entries[i].name;
    ApplyActiveOutcome(m, entries);
    ApplyActiveOutcome(m, init);
    ApplyActivePreserves(m, init, k);
    if i < |init| {
      assert init[i] == entries[i];
      assert LastActiveEntry(init, i) by {
        forall j | i < j < |init| ensures init[j].name != init[i].name {
          assert init[j] == entries[j];
        }
      }
      ApplyActiveLast(m, init, i);
    }
  }

  /**
   * `getNewsGroupList` fails exactly when some ACTIVE line names a group no
   * NEWSGROUPS line has, and then with the first such name.
   */
  lemma GroupListFails(newsLines: seq<string>, activeLines: seq<string>)
    ensures GroupList(newsLines, activeLines).Failure? <==>
      exists i :: 0 <= i < |activeLines| && ParseActive(activeLines[i]).name !in NewsgroupKeys(newsLines)
    ensures GroupList(newsLines, activeLines).Failure? ==>
      exists i :: FirstUnknown(NewsgroupsMap(newsLines), ParseActiveLines(activeLines), i) &&
        GroupList(newsLines, activeLines).error == TypeError(ParseActive(activeLines[i]).name)
  {
    NewsgroupsMapKeys(newsLines);
    ApplyActiveOutcome(NewsgroupsMap(newsLines), ParseActiveLines(activeLines));
  }

  /** On success there is one record per distinct NEWSGROUPS key. */
  lemma GroupListKeys(newsLines: seq<string>, activeLines: seq<string>)
    requires GroupList(newsLines, activeLines).Success?
    ensures GroupList(newsLines, activeLines).value.Keys == NewsgroupKeys(newsLines)
  {
    NewsgroupsMapKeys(newsLines);
    ApplyActiveOutcome(NewsgroupsMap(newsLines), ParseActiveLines(activeLines));
  }

  /**
   * A record's name is always empty, and its description comes from the
   * last NEWSGROUPS line with its key.
   */
  lemma GroupListDescription(newsLines: seq<string>, activeLines: seq<string>, i: int)
    requires GroupList(newsLines, activeLines).Success?
    requires LastNewsgroupLine(newsLines, i)
    ensures NewsgroupKey(newsLines[i]) in GroupList(newsLines, activeLines).value
    ensures GroupList(newsLines, activeLines).value[NewsgroupKey(newsLines[i])].name == ""
    ensures GroupList(newsLines, activeLines).value[NewsgroupKey(newsLines[i])].description == NewsgroupDescription(newsLines[i])
  {
    NewsgroupsMapLastWins(newsLines, i);
    ApplyActivePreserves(NewsgroupsMap(newsLines), ParseActiveLines(activeLines), NewsgroupKey(newsLines[i]));
  }

  /** A record whose group no ACTIVE line names keeps the watermarks -1. */
  lemma GroupListUnlisted(newsLines: seq<string>, activeLines: seq<string>, k: string)
    requires GroupList(newsLines, activeLines).Success?
    requires k in GroupList(newsLines, activeLines).value
    requires forall j :: 0 <= j < |activeLines| ==> ParseActive(activeLines[j]).name != k
    ensures GroupList(newsLines, activeLines).value[k].lowWater == Num(-1)
    ensures GroupList(newsLines, activeLines).value[k].highWater == Num(-1)
  {
    var m := NewsgroupsMap(newsLines);
    var es := ParseActiveLines(activeLines);
    ApplyActiveOutcome(m, es);
    NewsgroupsMapDescriptionOnly(newsLines, k);
    ApplyActiveUntouched(m, es, k);
  }

  /** The last ACTIVE line naming a record's group sets both of its watermarks. */
  lemma GroupListWatermarks(newsLines: seq<string>, activeLines: seq<string>, j: int)
    requires GroupList(newsLines, activeLines).Success?
    requires LastActiveEntry(ParseActiveLines(activeLines), j)
    ensures ParseActive(activeLines[j]).name in GroupList(newsLines, activeLines).value
    ensures var g := GroupList(newsLines, activeLines).value[ParseActive(activeLines[j]).name];
      g.lowWater == ParseActive(activeLines[j]).low && g.highWater == ParseActive(activeLines[j]).high
  {
    var m := NewsgroupsMap(newsLines);
    var es := ParseActiveLines(activeLines);
    ApplyActiveLast(m, es, j);
  }

  /** Once a prefix of the ACTIVE pass fails, the whole pass fails with the same error. */
  lemma {:induction false} ApplyActiveFailureSticks(m: map<string, PartialGroupInfo>, entries: seq<ActiveEntry>, k: nat)
    requires k <= |entries| && ApplyActive(m, entries[..k]).Failure?
    ensures ApplyActive(m, entries) == ApplyActive(m, entries[..k])
    decreases |entries| - k
  {
    if k < |entries| {
      assert DropLast(entries[..k + 1]) == entries[..k];
      ApplyActiveFailureSticks(m, entries, k + 1);
    } else {
      assert entries[..k] == entries;
    }
  }

  /** The NEWSGROUPS `forEach` of `getNewsGroupList`, filling `groupMap` entry by entry. */
  method CollectNewsgroups(newsLines: seq<string>) returns (groupMap: map<string, PartialGroupInfo>)
    ensures groupMap == NewsgroupsMap(newsLines)
  {
    groupMap := map[];
    var i := 0;
    while i < |newsLines|
      invariant 0 <= i <= |newsLines|
      invariant groupMap == NewsgroupsMap(newsLines[..i])
    {
      var val := newsLines[i];
      var firstSpace := IndexOf(val, " ");
      var name := Substring(val, 0, firstSpace);
      groupMap := groupMap[name := DescriptionOnly(Substring(val, firstSpace + 1, |val|))];
      NewsgroupsStep(newsLines, i);
      i := i + 1;
    }
    assert newsLines[..i] == newsLines;
  }

  /**
   * The ACTIVE `forEach` of `getNewsGroupList`, setting watermarks in place;
   * the first line naming a missing group throws.
   */
  method SetWatermarks(groupMap0: map<string, PartialGroupInfo>, activeLines: seq<string>)
    returns (r: Result<map<string, PartialGroupInfo>, ListError>)
    ensures r == ApplyActive(groupMap0, ParseActiveLines(activeLines))
  {
    var groupMap := groupMap0;
    ghost var entries := ParseActiveLines(activeLines);
    var j := 0;
    while j < |activeLines|
      invariant 0 <= j <= |activeLines|
      invariant ApplyActive(groupMap0, entries[..j]) == Success(groupMap)
    {
      var splitted := Split(activeLines[j], " ");
      var name := splitted[0];
      ParseActiveTokens(activeLines[j], splitted);
      if name !in groupMap {
        ApplyActiveStop(groupMap0, entries, j, groupMap);
        return Failure(TypeError(name));
      }
      ApplyActiveStep(groupMap0, entries, j, groupMap);
      var record := groupMap[name];
      record := record.(highWater := Some(TokenNumber(splitted, 1)));
      record := record.(lowWater := Some(TokenNumber(splitted, 2)));
      groupMap := groupMap[name := record];
      j := j + 1;
    }
    assert entries[..j] == entries;
    r := Success(groupMap);
  }

  /** The dictionary-building part of `getNewsGroupList` and the completed records it resolves with. */
  method BuildGroupList(newsLines: seq<string>, activeLines: seq<string>) returns (r: Result<map<string, GroupInfo>, ListError>)
    ensures r == GroupList(newsLines, activeLines)
  {
    var groupMap := CollectNewsgroups(newsLines);
    var active := SetWatermarks(groupMap, activeLines);
    match active
    case Failure(e) => r := Failure(e);
    case Success(m) => r := Success(CompleteAll(m));
  }
}
