/**
 * OfflineItemSimilarity's reading of the training file: each line is a
 * user id and that user's item sequence, of which the last three items are
 * held out; the kept (user, item, 1) records become a user -> item -> record
 * dictionary. The lines are given as strings; opening and reading the file
 * is not part of this model.
 */
module TrainData {
  import opened Results
  import opened PyText

  /** A (user, item, record) triple. */
  type Record = (string, string, int)

  /** user -> item -> record; Python's insertion order of the keys is not kept. */
  type TrainDict = map<string, map<string, int>>

  /** The dictionary after writing the records in order: setdefault(user, {}); d[user][item] = record. */
  function ToDict(data: seq<Record>): (d: TrainDict)
    ensures d == map[] <==> data == []
    ensures data != [] ==> data[|data| - 1].0 in d && data[|data| - 1].1 in d[data[|data| - 1].0]
  {
    if data == [] then map[] else Store(ToDict(data[..|data| - 1]), data[|data| - 1])
  }

  /** One record written into the dictionary. */
  function Store(d: TrainDict, t: Record): TrainDict
  {
    d[t.0 := (if t.0 in d then d[t.0] else map[])[t.1 := t.2]]
  }

  predicate Holds(d: TrainDict, u: string, i: string)
  {
    u in d && i in d[u]
  }

  predicate Names(data: seq<Record>, u: string, i: string)
  {
    exists k :: 0 <= k < |data| && data[k].0 == u && data[k].1 == i
  }

  lemma StoreUser(d: TrainDict, t: Record, u: string)
    ensures u in Store(d, t) <==> u in d || u == t.0
  {
  }

  lemma StorePair(d: TrainDict, t: Record, u: string, i: string)
    ensures Holds(Store(d, t), u, i) <==> Holds(d, u, i) || (u == t.0 && i == t.1)
  {
  }

  lemma StoreValue(d: TrainDict, t: Record, u: string, i: string)
    requires Holds(Store(d, t), u, i)
    ensures Store(d, t)[u][i] == if u == t.0 && i == t.1 then t.2 else d[u][i]
  {
  }

  /** A user is a key exactly when some record names them. */
  lemma ToDictUsers(data: seq<Record>)
    ensures forall u :: u in ToDict(data) <==> exists k :: 0 <= k < |data| && data[k].0 == u
  {
    forall u
      ensures u in ToDict(data) <==> exists k :: 0 <= k < |data| && data[k].0 == u
    {
      ToDictUser(data, u);
    }
  }

  lemma {:induction false} ToDictUser(data: seq<Record>, u: string)
    ensures u in ToDict(data) <==> exists k :: 0 <= k < |data| && data[k].0 == u
  {
    if data != [] {
      var n := |data| - 1;
      var front := data[..n];
      ToDictUser(front, u);
      StoreUser(ToDict(front), data[n], u);
      if u in ToDict(front) {
        var k :| 0 <= k < n && front[k].0 == u;
        assert data[k].0 == u;
      }
      if exists k :: 0 <= k < |data| && data[k].0 == u {
        var k :| 0 <= k < |data| && data[k].0 == u;
        if k < n {
          assert front[k].0 == u;
        }
      }
    }
  }

  /** An item is under a user exactly when some record names both. */
  lemma ToDictPairs(data: seq<Record>)
    ensures forall u, i :: Holds(ToDict(data), u, i) <==> Names(data, u, i)
  {
    forall u, i
      ensures Holds(ToDict(data), u, i) <==> Names(data, u, i)
    {
      ToDictPair(data, u, i);
    }
  }

  lemma {:induction false} ToDictPair(data: seq<Record>, u: string, i: string)
    ensures Holds(ToDict(data), u, i) <==> Names(data, u, i)
  {
    if data != [] {
      var n := |data| - 1;
      var front := data[..n];
      ToDictPair(front, u, i);
      StorePair(ToDict(front), data[n], u, i);
      if Names(front, u, i) {
        var k :| 0 <= k < n && front[k].0 == u && front[k].1 == i;
        assert data[k].0 == u && data[k].1 == i;
      }
      if Names(data, u, i) {
        var k :| 0 <= k < |data| && data[k].0 == u && data[k].1 == i;
        if k < n {
          assert front[k].0 == u && front[k].1 == i;
        }
      }
    }
  }

  /** Every stored value comes from a record. */
  lemma ToDictValues(data: seq<Record>)
    ensures forall u, i :: Holds(ToDict(data), u, i) ==>
      exists k :: 0 <= k < |data| && data[k] == (u, i, ToDict(data)[u][i])
  {
    forall u, i | Holds(ToDict(data), u, i)
      ensures exists k :: 0 <= k < |data| && data[k] == (u, i, ToDict(data)[u][i])
    {
      ToDictValue(data, u, i);
    }
  }

  lemma {:induction false} ToDictValue(data: seq<Record>, u: string, i: string)
    requires Holds(ToDict(data), u, i)
    ensures exists k :: 0 <= k < |data| && data[k] == (u, i, ToDict(data)[u][i])
  {
    var n := |data| - 1;
    var front := data[..n];
    var d := ToDict(front);
    StorePair(d, data[n], u, i);
    StoreValue(d, data[n], u, i);
    if u == data[n].0 && i == data[n].1 {
      assert data[n] == (u, i, ToDict(data)[u][i]);
    } else {
      ToDictValue(front, u, i);
      var k :| 0 <= k < n && front[k] == (u, i, d[u][i]);
      assert data[k] == (u, i, ToDict(data)[u][i]);
    }
  }

  /** The last record for a (user, item) pair is the one kept. */
  lemma {:induction false} ToDictLastWrite(data: seq<Record>, k: nat)
    requires k < |data| && LastWrite(data, k)
    ensures Holds(ToDict(data), data[k].0, data[k].1)
    ensures ToDict(data)[data[k].0][data[k].1] == data[k].2
  {
    var n := |data| - 1;
    var front := data[..n];
    var (u, i) := (data[k].0, data[k].1);
    StorePair(ToDict(front), data[n], u, i);
    if k < n {
      assert front[k] == data[k];
      assert LastWrite(front, k);
      ToDictLastWrite(front, k);
    }
    StoreValue(ToDict(front), data[n], u, i);
  }

  /** No later record names the same (user, item) pair as record k. */
  predicate LastWrite(data: seq<Record>, k: nat)
    requires k < |data|
  {
    forall k' :: k < k' < |data| ==> data[k'].0 != data[k].0 || data[k'].1 != data[k].1
  }

  /** setdefault(user, {}) followed by d[user][item] = record is one Store. */
  lemma SetDefaultThenAssign(d: TrainDict, t: Record)
    ensures var d1 := if t.0 in d then d else d[t.0 := map[]];
      d1[t.0 := d1[t.0][t.1 := t.2]] == Store(d, t)
  {
  }

  /** _convert_data_to_dict */
  method ConvertDataToDict(data: seq<Record>) returns (d: TrainDict)
    ensures d == ToDict(data)
  {
    d := map[];
    for n := 0 to |data|
      invariant d == ToDict(data[..n])
    {
      var (user, item, record) := data[n];
      SetDefaultThenAssign(d, data[n]);
      if user !in d {
        d := d[user := map[]];
      }
      d := d[user := d[user][item := record]];
      assert data[..n + 1][..n] == data[..n];
    }
    assert data[..|data|] == data;
  }

  // ---------------------------------------------------------------------------
  // One line of the training file

  /** s[:-3] */
  function DropLastThree<T>(s: seq<T>): (r: seq<T>)
    ensures |r| == if |s| > 3 then |s| - 3 else 0
    ensures r == s[..|r|]
  {
    s[..if |s| > 3 then |s| - 3 else 0]
  }

  /**
   * userid, items = line.strip().split(' ', 1); items = items.split(' ')[:-3].
   * None when the stripped line has no space, where the unpacking raises ValueError.
   */
  function ParseLine(line: string): (r: Option<(string, seq<string>)>)
    ensures r.None? <==> ' ' !in Strip(line)
  {
    match SplitOnce(Strip(line), ' ')
    case None => None
    case Some((user, rest)) => Some((user, DropLastThree(Split(rest, ' '))))
  }

  predicate NoSpace(s: string)
  {
    ' ' !in s
  }

  /**
   * A well-formed line, a user id, then the kept items, then the three held
   * out, all separated by single spaces, parses back to the user and the kept items.
   */
  lemma ParseLineRoundTrip(user: string, items: seq<string>, heldOut: seq<string>)
    requires user != [] && NoSpace(user) && !IsSpace(user[0])
    requires forall j :: 0 <= j < |items| ==> NoSpace(items[j])
    requires |heldOut| == 3 && forall j :: 0 <= j < 3 ==> NoSpace(heldOut[j])
    requires heldOut[2] != [] && !IsSpace(heldOut[2][|heldOut[2]| - 1])
    ensures ParseLine(user + " " + Join(items + heldOut, ' ')) == Some((user, items))
  {
    var parts := items + heldOut;
    var rest := Join(parts, ' ');
    var line := user + " " + rest;
    JoinEndsWith(parts, ' ');
    assert line[|line| - 1] == rest[|rest| - 1];
    StripOfTrimmed(line);
    SplitOnceAt(user, rest, ' ');
    SplitJoin(parts, ' ');
    assert parts[..|items|] == items;
  }

  lemma {:induction false} JoinEndsWith(parts: seq<string>, sep: char)
    requires |parts| >= 1 && parts[|parts| - 1] != []
    ensures var j := Join(parts, sep); var last := parts[|parts| - 1];
      |j| >= |last| && j[|j| - 1] == last[|last| - 1]
  {
    if |parts| > 1 {
      JoinEndsWith(parts[1..], sep);
      assert parts[1..][|parts| - 2] == parts[|parts| - 1];
    }
  }

  lemma {:induction false} SplitOnceAt(head: string, tail: string, sep: char)
    requires sep !in head
    ensures SplitOnce(head + [sep] + tail, sep) == Some((head, tail))
  {
    var s := head + [sep] + tail;
    if head == [] {
      assert s[0] == sep && s[1..] == tail;
    } else {
      SplitOnceAt(head[1..], tail, sep);
      assert s[0] == head[0] && s[0] != sep;
      assert s[1..] == head[1..] + [sep] + tail;
      assert SplitOnce(s[1..], sep) == Some((head[1..], tail));
      assert [head[0]] + head[1..] == head;
    }
  }

  lemma {:induction false} SplitWithout(s: string, sep: char)
    requires sep !in s
    ensures Split(s, sep) == [s]
    decreases |s|
  {
    if s != [] {
      SplitWithout(s[1..], sep);
      assert [s[0]] + s[1..] == s;
    }
  }

  lemma {:induction false} SplitAfter(head: string, tail: string, sep: char)
    requires sep !in head
    ensures Split(head + [sep] + tail, sep) == [head] + Split(tail, sep)
    decreases |head|
  {
    var s := head + [sep] + tail;
    if head == [] {
      assert s[1..] == tail;
    } else {
      SplitAfter(head[1..], tail, sep);
      assert s[1..] == head[1..] + [sep] + tail;
      assert [head[0]] + head[1..] == head;
    }
  }

  /** Joining pieces free of the separator and splitting again gives the pieces. */
  lemma {:induction false} SplitJoin(parts: seq<string>, sep: char)
    requires |parts| >= 1 && forall j :: 0 <= j < |parts| ==> sep !in parts[j]
    ensures Split(Join(parts, sep), sep) == parts
  {
    if |parts| == 1 {
      SplitWithout(parts[0], sep);
    } else {
      SplitJoin(parts[1..], sep);
      SplitAfter(parts[0], Join(parts[1..], sep), sep);
    }
  }

  /** A parsed line: the user has no space, no kept item has a space, and split and join invert each other. */
  lemma ParseLineSpec(line: string)
    ensures ParseLine(line).None? <==> ' ' !in Strip(line)
    ensures ParseLine(line).Some? ==>
      var (user, items) := ParseLine(line).value;
      && NoSpace(user)
      && (forall j :: 0 <= j < |items| ==> NoSpace(items[j]))
      && exists rest :: Strip(line) == user + " " + rest && items == DropLastThree(Split(rest, ' ')) && Join(Split(rest, ' '), ' ') == rest
  {
    match SplitOnce(Strip(line), ' ')
    case None =>
    case Some((user, rest)) =>
      JoinSplit(rest, ' ');
      var pieces := Split(rest, ' ');
      var items := DropLastThree(pieces);
      assert forall j :: 0 <= j < |items| ==> items[j] == pieces[j];
  }

  // ---------------------------------------------------------------------------
  // _load_train_data

  /** Raised on the first line that has no space once stripped. */
  datatype LoadError = MissingItems(line: nat)

  function ParsedLines(lines: seq<string>): (r: seq<(string, seq<string>)>)
    requires forall k :: 0 <= k < |lines| ==> ParseLine(lines[k]).Some?
    ensures |r| == |lines|
  {
    seq(|lines|, k requires 0 <= k < |lines| => ParseLine(lines[k]).value)
  }

  function LineRecords(user: string, items: seq<string>): seq<Record>
  {
    seq(|items|, j requires 0 <= j < |items| => (user, items[j], 1))
  }

  /** The records of all lines, line after line, item after item. */
  function Records(parsed: seq<(string, seq<string>)>): seq<Record>
  {
    if parsed == [] then []
    else Records(parsed[..|parsed| - 1]) + LineRecords(parsed[|parsed| - 1].0, parsed[|parsed| - 1].1)
  }

  lemma {:induction false} RecordsSpec(parsed: seq<(string, seq<string>)>)
    ensures forall t :: t in Records(parsed) <==>
      exists k, j :: 0 <= k < |parsed| && 0 <= j < |parsed[k].1| && t == (parsed[k].0, parsed[k].1[j], 1)
  {
    if parsed != [] {
      var n := |parsed| - 1;
      var front := parsed[..n];
      RecordsSpec(front);
      var line := LineRecords(parsed[n].0, parsed[n].1);
      assert Records(parsed) == Records(front) + line;
      forall t | t in Records(parsed)
        ensures exists k, j :: 0 <= k < |parsed| && 0 <= j < |parsed[k].1| && t == (parsed[k].0, parsed[k].1[j], 1)
      {
        if t in line {
          var j :| 0 <= j < |line| && line[j] == t;
          assert t == (parsed[n].0, parsed[n].1[j], 1);
        } else {
          assert t in Records(front);
          var k, j :| 0 <= k < |front| && 0 <= j < |front[k].1| && t == (front[k].0, front[k].1[j], 1);
          assert front[k] == parsed[k];
        }
      }
      forall k, j | 0 <= k < |parsed| && 0 <= j < |parsed[k].1|
        ensures (parsed[k].0, parsed[k].1[j], 1) in Records(parsed)
      {
        if k == n {
          assert line[j] == (parsed[k].0, parsed[k].1[j], 1);
        } else {
          assert front[k] == parsed[k];
          assert (front[k].0, front[k].1[j], 1) in Records(front);
        }
      }
    }
  }

  /** Appends the records of one line: for itemid in items: train_data.append((userid, itemid, 1)). */
  method AppendLineRecords(records: seq<Record>, user: string, items: seq<string>) returns (r: seq<Record>)
    ensures r == records + LineRecords(user, items)
  {
    r := records;
    for j := 0 to |items|
      invariant r == records + LineRecords(user, items[..j])
    {
      r := r + [(user, items[j], 1)];
      assert LineRecords(user, items[..j + 1]) == LineRecords(user, items[..j]) + [(user, items[j], 1)];
    }
    assert items[..|items|] == items;
  }

  /** x is one of the kept items of some line. */
  predicate Kept(lists: seq<seq<string>>, x: string)
  {
    exists k, j :: 0 <= k < |lists| && 0 <= j < |lists[k]| && lists[k][j] == x
  }

  lemma KeptAppend(lists: seq<seq<string>>, items: seq<string>, x: string)
    ensures Kept(lists + [items], x) <==> Kept(lists, x) || x in items
  {
    var l := lists + [items];
    if Kept(l, x) {
      var k, j :| 0 <= k < |l| && 0 <= j < |l[k]| && l[k][j] == x;
      if k == |lists| {
        assert items[j] == x;
      } else {
        assert lists[k][j] == x;
      }
    }
    if Kept(lists, x) {
      var k, j :| 0 <= k < |lists| && 0 <= j < |lists[k]| && lists[k][j] == x;
      assert l[k][j] == x;
    }
    if x in items {
      var j :| 0 <= j < |items| && items[j] == x;
      assert l[|lists|][j] == x;
    }
  }

  /** The kept items of every parsed line. */
  function KeptLists(parsed: seq<(string, seq<string>)>): (r: seq<seq<string>>)
    ensures |r| == |parsed| && forall k :: 0 <= k < |parsed| ==> r[k] == parsed[k].1
  {
    seq(|parsed|, k requires 0 <= k < |parsed| => parsed[k].1)
  }

  /** The items of one line as a set. */
  function ItemSet(items: seq<string>): (r: set<string>)
    ensures forall x :: x in r <==> x in items
  {
    set j | 0 <= j < |items| :: items[j]
  }

  /** One more parsed line extends the kept lists and the records by that line's. */
  lemma ParsedStep(parsed: seq<(string, seq<string>)>, line: (string, seq<string>))
    ensures KeptLists(parsed + [line]) == KeptLists(parsed) + [line.1]
    ensures Records(parsed + [line]) == Records(parsed) + LineRecords(line.0, line.1)
  {
    var p := parsed + [line];
    assert p[..|parsed|] == parsed;
    assert p[|p| - 1] == line;
  }

  /**
   * _load_train_data on the file's lines: the kept items of every line, the
   * set of all kept items, and the dictionary of (user, item, 1) records.
   */
  method LoadTrainData(lines: seq<string>) returns (r: Result<(seq<seq<string>>, set<string>, TrainDict), LoadError>)
    ensures r.Err? ==>
      && r.error.line < |lines|
      && ParseLine(lines[r.error.line]).None?
      && forall k :: 0 <= k < r.error.line ==> ParseLine(lines[k]).Some?
    ensures r.Ok? ==> forall k :: 0 <= k < |lines| ==> ParseLine(lines[k]).Some?
    ensures r.Ok? ==>
      && r.value.0 == KeptLists(ParsedLines(lines))
      && (forall x :: x in r.value.1 <==> Kept(r.value.0, x))
      && r.value.2 == ToDict(Records(ParsedLines(lines)))
  {
    var lists: seq<seq<string>> := [];
    var itemSet: set<string> := {};
    var records: seq<Record> := [];
    ghost var parsed: seq<(string, seq<string>)> := [];
    for k := 0 to |lines|
      invariant |parsed| == k
      invariant forall k' :: 0 <= k' < k ==> ParseLine(lines[k']) == Some(parsed[k'])
      invariant lists == KeptLists(parsed)
      invariant forall x :: x in itemSet <==> Kept(lists, x)
      invariant records == Records(parsed)
    {
      var line := ParseLine(lines[k]);
      if line.None? {
        return Err(MissingItems(k));
      }
      var (user, items) := line.value;
      records := AppendLineRecords(records, user, items);
      forall x
        ensures x in itemSet + ItemSet(items) <==> Kept(lists + [items], x)
      {
        KeptAppend(lists, items, x);
      }
      ParsedStep(parsed, (user, items));
      forall k' | 0 <= k' <= k
        ensures ParseLine(lines[k']) == Some((parsed + [(user, items)])[k'])
      {
        if k' < k {
          assert (parsed + [(user, items)])[k'] == parsed[k'];
        }
      }
      parsed := parsed + [(user, items)];
      lists := lists + [items];
      itemSet := itemSet + ItemSet(items);
    }
    assert parsed == ParsedLines(lines);
    var dict := ConvertDataToDict(records);
    return Ok((lists, itemSet, dict));
  }

  /** A line of user u keeps item i. */
  predicate InLines(parsed: seq<(string, seq<string>)>, u: string, i: string)
  {
    exists k, j :: 0 <= k < |parsed| && 0 <= j < |parsed[k].1| && parsed[k].0 == u && parsed[k].1[j] == i
  }

  /**
   * The loaded dictionary holds a user and item exactly when some line of
   * that user keeps the item, always with record 1.
   */
  lemma LoadedDictSpec(parsed: seq<(string, seq<string>)>)
    ensures forall u, i :: Holds(ToDict(Records(parsed)), u, i) <==> InLines(parsed, u, i)
    ensures forall u, i :: Holds(ToDict(Records(parsed)), u, i) ==> ToDict(Records(parsed))[u][i] == 1
  {
    var data := Records(parsed);
    var d := ToDict(data);
    RecordsSpec(parsed);
    ToDictValues(data);
    forall u, i
      ensures Holds(d, u, i) <==> InLines(parsed, u, i)
      ensures Holds(d, u, i) ==> d[u][i] == 1
    {
      ToDictPair(data, u, i);
      if Holds(d, u, i) {
        var m :| 0 <= m < |data| && data[m] == (u, i, d[u][i]);
        assert data[m] in data;
      }
      if InLines(parsed, u, i) {
        var k, j :| 0 <= k < |parsed| && 0 <= j < |parsed[k].1| && parsed[k].0 == u && parsed[k].1[j] == i;
        assert (u, i, 1) in data;
        var m :| 0 <= m < |data| && data[m] == (u, i, 1);
      }
    }
  }
}
