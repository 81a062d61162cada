/**
 * `write_to_csv` of main.py: the session list fetched from the history API is sorted in
 * place by its parsed `createdAt` timestamp, oldest first, and then written as one
 * header row followed by one six-field row per session.
 *
 * A session is the JSON object the API returns, a map from key to value; a row is the
 * list of cell texts handed to `csv.writer` (file handling and CSV quoting are not
 * modelled). Parsing a timestamp is the parameter `parse`, mapping the text given to
 * `datetime.fromisoformat` to an instant (a totally ordered integer), or `None` where
 * that call raises.
 */
module SessionExport {

  import opened Wrappers
  import opened StableSorting
  import Decimal

  /** The JSON values a session field can hold. */
  datatype JsonValue = JStr(text: string) | JInt(n: int) | JBool(b: bool) | JNull

  type Session = map<string, JsonValue>

  type Row = seq<string>

  /** Why computing a session's sort key raises, which aborts the sort. */
  datatype SortKeyError =
    | MissingCreatedAt                  // `x['createdAt']` raises KeyError
    | CreatedAtNotText(value: JsonValue) // `.replace` on a value that is not a str
    | UnparseableCreatedAt(text: string) // `datetime.fromisoformat` raises ValueError on `text`

  /** The header row written first. */
  const Header: Row := ["Created At", "Time", "Elapsed", "Goal", "Ended", "Work"]

  /** The session keys read for the six columns, in column order. */
  const Fields: seq<string> := ["createdAt", "time", "elapsed", "goal", "ended", "work"]

  /** `t.replace('Z', '+00:00')`: every 'Z' becomes the UTC offset. */
  function ReplaceZ(t: string): (r: string)
    ensures |t| <= |r|
  {
    if t == [] then []
    else ReplaceZ(t[..|t| - 1]) + (if t[|t| - 1] == 'Z' then "+00:00" else [t[|t| - 1]])
  }

  /** The text given to the parser holds no 'Z', and a text without 'Z' passes unchanged. */
  lemma {:induction false} ReplaceZRemovesZ(t: string)
    ensures 'Z' !in ReplaceZ(t)
    ensures 'Z' !in t ==> ReplaceZ(t) == t
    decreases |t|
  {
    if t != [] {
      var t', c := t[..|t| - 1], t[|t| - 1];
      ReplaceZRemovesZ(t');
      assert t == t' + [c];
      assert 'Z' !in t ==> 'Z' !in t';
    }
  }

  lemma {:induction false} ReplaceZAppend(t: string, u: string)
    ensures ReplaceZ(t + u) == ReplaceZ(t) + ReplaceZ(u)
    decreases |u|
  {
    if u == [] {
      assert t + u == t;
    } else {
      var u', c := u[..|u| - 1], u[|u| - 1];
      var tail := if c == 'Z' then "+00:00" else [c];
      assert (t + u)[..|t + u| - 1] == t + u' && (t + u)[|t + u| - 1] == c;
      assert ReplaceZ(t + u) == ReplaceZ(t + u') + tail;
      assert ReplaceZ(u) == ReplaceZ(u') + tail;
      ReplaceZAppend(t, u');
      assert ReplaceZ(t) + ReplaceZ(u') + tail == ReplaceZ(t) + (ReplaceZ(u') + tail);
    }
  }

  /** A 'Z' suffix and an explicit "+00:00" offset reach the parser as the same text. */
  lemma ZuluIsUtc(pre: string, post: string)
    ensures ReplaceZ(pre + "Z" + post) == ReplaceZ(pre + "+00:00" + post)
  {
    ReplaceZAppend(pre + "Z", post);
    ReplaceZAppend(pre, "Z");
    ReplaceZAppend(pre + "+00:00", post);
    ReplaceZAppend(pre, "+00:00");
    ReplaceZRemovesZ("+00:00");
    assert "Z" == [] + ['Z'];
  }

  /**
   * Two sessions that differ only in writing UTC as 'Z' or as "+00:00" in `createdAt`
   * get the same sort key, whatever the parser.
   */
  lemma ZuluSameKey(s: Session, pre: string, post: string, parse: string -> Option<int>)
    ensures SortKey(s["createdAt" := JStr(pre + "Z" + post)], parse)
         == SortKey(s["createdAt" := JStr(pre + "+00:00" + post)], parse)
    ensures SortKey(s["createdAt" := JStr(pre + "Z" + post)], parse).Success? ==>
      SortKey(s["createdAt" := JStr(pre + "Z" + post)], parse).value ==
      Instant(parse)(s["createdAt" := JStr(pre + "+00:00" + post)])
  {
    ZuluIsUtc(pre, post);
  }

  /** The sort key of one session: its parsed `createdAt` instant, or the error the key function raises. */
  function SortKey(s: Session, parse: string -> Option<int>): (r: Result<int, SortKeyError>)
    ensures r.Success? <==>
      "createdAt" in s && s["createdAt"].JStr? && parse(ReplaceZ(s["createdAt"].text)).Some?
    ensures r.Success? ==> r.value == parse(ReplaceZ(s["createdAt"].text)).value
    ensures "createdAt" !in s ==> r == Failure(MissingCreatedAt)
  {
    if "createdAt" !in s then Failure(MissingCreatedAt)
    else match s["createdAt"]
      case JStr(t) =>
        (match parse(ReplaceZ(t))
         case Some(k) => Success(k)
         case None => Failure(UnparseableCreatedAt(ReplaceZ(t))))
      case v => Failure(CreatedAtNotText(v))
  }

  /**
   * The keys of all sessions, computed front to back before any element moves, as
   * `list.sort` does; the first session whose key raises decides the error.
   */
  function SortKeys(ss: seq<Session>, parse: string -> Option<int>): (r: Result<seq<int>, SortKeyError>)
    ensures r.Success? <==> forall i :: 0 <= i < |ss| ==> SortKey(ss[i], parse).Success?
    ensures r.Success? ==>
      (|r.value| == |ss| && forall i :: 0 <= i < |ss| ==> SortKey(ss[i], parse) == Success(r.value[i]))
  {
    if ss == [] then Success([])
    else
      var init, last := ss[..|ss| - 1], ss[|ss| - 1];
      assert forall i :: 0 <= i < |init| ==> init[i] == ss[i];
      match SortKeys(init, parse)
      case Failure(e) => Failure(e)
      case Success(ks) =>
        match SortKey(last, parse)
        case Failure(e) => Failure(e)
        case Success(k) => Success(ks + [k])
  }

  /** The error of `SortKeys` is the one raised by the first session whose key fails. */
  lemma {:induction false} SortKeysFirstFailure(ss: seq<Session>, parse: string -> Option<int>)
    requires SortKeys(ss, parse).Failure?
    ensures exists i :: (0 <= i < |ss| && SortKey(ss[i], parse) == Failure(SortKeys(ss, parse).error) &&
      (forall j :: 0 <= j < i ==> SortKey(ss[j], parse).Success?))
  {
    var init := ss[..|ss| - 1];
    assert forall i :: 0 <= i < |init| ==> init[i] == ss[i];
    if SortKeys(init, parse).Failure? {
      SortKeysFirstFailure(init, parse);
      var i :| 0 <= i < |init| && SortKey(init[i], parse) == Failure(SortKeys(init, parse).error) &&
        (forall j :: 0 <= j < i ==> SortKey(init[j], parse).Success?);
      assert SortKey(ss[i], parse) == Failure(SortKeys(ss, parse).error);
    } else {
      assert SortKey(ss[|ss| - 1], parse) == Failure(SortKeys(ss, parse).error);
    }
  }

  /**
   * The instant a session sorts by; on the path where every key was computed this is
   * exactly that key (sessions whose key raises never reach the sort).
   */
  function Instant(parse: string -> Option<int>): Session -> int {
    s => if SortKey(s, parse).Success? then SortKey(s, parse).value else 0
  }

  /** The text `csv.writer` writes for one JSON value. */
  function CellText(v: JsonValue): (r: string)
    ensures v.JStr? ==> r == v.text
    ensures v.JInt? ==> Decimal.ParseInt(r) == Some(v.n)
    ensures v.JBool? ==> r == (if v.b then "True" else "False")
    ensures v.JNull? ==> r == ""
  {
    match v
    case JStr(t) => t
    case JInt(n) => Decimal.IntTextRoundTrip(n); Decimal.IntText(n)
    case JBool(b) => if b then "True" else "False"
    case JNull => ""
  }

  /** `session.get(field, '')`, written as text. */
  function Cell(s: Session, field: string): (r: string)
    ensures field !in s ==> r == ""
  {
    if field in s then CellText(s[field]) else ""
  }

  /** The data row written for one session. */
  function RowOf(s: Session): (r: Row)
    ensures |r| == |Fields| == |Header|
    ensures forall j :: 0 <= j < |Fields| ==> r[j] == Cell(s, Fields[j])
  {
    [Cell(s, "createdAt"), Cell(s, "time"), Cell(s, "elapsed"), Cell(s, "goal"), Cell(s, "ended"), Cell(s, "work")]
  }

  /** The key loop of `list.sort`: all keys, or the first error with the list left as it was. */
  method ComputeKeys(sessions: array<Session>, parse: string -> Option<int>) returns (r: Result<array<int>, SortKeyError>)
    ensures SortKeys(sessions[..], parse).Failure? ==> r == Failure(SortKeys(sessions[..], parse).error)
    ensures SortKeys(sessions[..], parse).Success? ==>
      r.Success? && fresh(r.value) && r.value[..] == SortKeys(sessions[..], parse).value
  {
    var keys := new int[sessions.Length];
    var i := 0;
    while i < sessions.Length
      invariant 0 <= i <= sessions.Length
      invariant SortKeys(sessions[..i], parse) == Success(keys[..i])
    {
      assert sessions[..i + 1][..i] == sessions[..i];
      var k := SortKey(sessions[i], parse);
      if k.Failure? {
        SortKeysFailurePropagates(sessions[..], i + 1, parse);
        return Failure(k.error);
      }
      keys[i] := k.value;
      assert keys[..i + 1] == keys[..i] + [k.value];
      i := i + 1;
    }
    assert sessions[..] == sessions[..sessions.Length];
    return Success(keys);
  }

  /** Once a prefix fails, the whole list fails with the same error. */
  lemma {:induction false} SortKeysFailurePropagates(ss: seq<Session>, n: nat, parse: string -> Option<int>)
    requires n <= |ss| && SortKeys(ss[..n], parse).Failure?
    ensures SortKeys(ss, parse) == SortKeys(ss[..n], parse)
    decreases |ss| - n
  {
    if n < |ss| {
      assert ss[..n + 1][..n] == ss[..n];
      SortKeysFailurePropagates(ss, n + 1, parse);
    } else {
      assert ss[..n] == ss;
    }
  }

  /**
   * One pass of the in-place insertion sort: `a[i]` moves down past every element of
   * the sorted prefix `a[..i]` with a larger key, its key moving with it in `keys`.
   */
  method InsertAt<T>(a: array<T>, keys: array<int>, i: nat, ghost key: T -> int)
    requires i < a.Length == keys.Length
    requires forall m :: 0 <= m < a.Length ==> keys[m] == key(a[m])
    modifies a, keys
    ensures a[..i + 1] == Insert(old(a[i]), old(a[..i]), key)
    ensures a[i + 1..] == old(a[i + 1..])
    ensures forall m :: 0 <= m < a.Length ==> keys[m] == key(a[m])
  {
    var x, kx := a[i], keys[i];
    ghost var P := a[..i];
    var j := i;
    while j > 0 && keys[j - 1] > kx
      invariant 0 <= j <= i
      invariant forall m :: 0 <= m < j ==> a[m] == P[m]
      invariant forall m :: j < m <= i ==> a[m] == P[m - 1]
      invariant forall m :: i < m < a.Length ==> a[m] == old(a[m])
      invariant forall m :: 0 <= m < a.Length && m != j ==> keys[m] == key(a[m])
      invariant forall m :: j <= m < i ==> kx < key(P[m])
    {
      a[j] := a[j - 1];
      keys[j] := keys[j - 1];
      j := j - 1;
    }
    InsertAtPosition(x, P, j, key);
    a[j] := x;
    keys[j] := kx;
    ShiftedIsInsert(a[..], P, x, j);
  }

  /** After the shift, the first `|P| + 1` cells are `P` with `x` placed at position `j`. */
  lemma ShiftedIsInsert<T>(s: seq<T>, P: seq<T>, x: T, j: nat)
    requires j <= |P| < |s|
    requires forall m :: 0 <= m < j ==> s[m] == P[m]
    requires s[j] == x
    requires forall m :: j < m <= |P| ==> s[m] == P[m - 1]
    ensures s[..|P| + 1] == P[..j] + [x] + P[j..]
  {
  }

  /**
   * `Insert` places `x` at position `j` of `P` when the element before `j` has a key at
   * most `x`'s and every element from `j` on has a larger key.
   */
  lemma {:induction false} InsertAtPosition<T>(x: T, P: seq<T>, j: nat, key: T -> int)
    requires j <= |P|
    requires j == 0 || key(P[j - 1]) <= key(x)
    requires forall m :: j <= m < |P| ==> key(x) < key(P[m])
    ensures Insert(x, P, key) == P[..j] + [x] + P[j..]
    decreases |P|
  {
    if j < |P| {
      var init := P[..|P| - 1];
      InsertAtPosition(x, init, j, key);
      assert init[..j] == P[..j] && init[j..] + [P[|P| - 1]] == P[j..];
    } else {
      assert P[..j] == P && P[j..] == [];
    }
  }

  /**
   * The in-place sort proper: an insertion sort that moves each session and its key
   * together, as CPython sorts the key list and the item list in lockstep.
   */
  method SortByKeys<T>(a: array<T>, keys: array<int>, ghost key: T -> int)
    requires a.Length == keys.Length
    requires forall m :: 0 <= m < a.Length ==> keys[m] == key(a[m])
    modifies a, keys
    ensures a[..] == StableSort(old(a[..]), key)
    ensures forall m :: 0 <= m < a.Length ==> keys[m] == key(a[m])
  {
    ghost var A := a[..];
    var i := 0;
    while i < a.Length
      invariant 0 <= i <= a.Length
      invariant a[..i] == StableSort(A[..i], key)
      invariant a[i..] == A[i..]
      invariant forall m :: 0 <= m < a.Length ==> keys[m] == key(a[m])
    {
      assert A[..i + 1][..i] == A[..i] && A[i] == a[i];
      InsertAt(a, keys, i, key);
      i := i + 1;
    }
    assert a[..] == a[..a.Length] && A == A[..a.Length];
  }

  /** The `for` loop of `write_to_csv`: the header, then one row per session in list order. */
  method EmitRows(sessions: array<Session>) returns (rows: seq<Row>)
    ensures |rows| == sessions.Length + 1
    ensures rows[0] == Header
    ensures forall i :: 0 <= i < sessions.Length ==> rows[i + 1] == RowOf(sessions[i])
  {
    rows := [Header];
    for i := 0 to sessions.Length
      invariant |rows| == i + 1 && rows[0] == Header
      invariant forall m :: 0 <= m < i ==> rows[m + 1] == RowOf(sessions[m])
    {
      rows := rows + [RowOf(sessions[i])];
    }
  }

  /**
   * `write_to_csv(sessions)`: sorts `sessions` in place by parsed `createdAt` and returns
   * the rows written. When a key raises, the list is left unchanged and nothing is written.
   */
  method WriteToCsv(sessions: array<Session>, parse: string -> Option<int>) returns (r: Result<seq<Row>, SortKeyError>)
    modifies sessions
    ensures SortKeys(old(sessions[..]), parse).Failure? ==>
      r == Failure(SortKeys(old(sessions[..]), parse).error) && sessions[..] == old(sessions[..])
    ensures SortKeys(old(sessions[..]), parse).Success? ==>
      sessions[..] == StableSort(old(sessions[..]), Instant(parse)) &&
      r.Success? && |r.value| == sessions.Length + 1 && r.value[0] == Header &&
      forall i :: 0 <= i < sessions.Length ==> r.value[i + 1] == RowOf(sessions[i])
  {
    var computed := ComputeKeys(sessions, parse);
    if computed.Failure? {
      return Failure(computed.error);
    }
    var keys := computed.value;
    SortByKeys(sessions, keys, Instant(parse));
    var rows := EmitRows(sessions);
    return Success(rows);
  }

  /**
   * After a successful sort every session still has a computable key: the sort only
   * rearranges the sessions whose keys were all computed.
   */
  lemma SortedSessionsKeyed(ss: seq<Session>, parse: string -> Option<int>)
    requires SortKeys(ss, parse).Success?
    ensures multiset(StableSort(ss, Instant(parse))) == multiset(ss)
    ensures forall i :: 0 <= i < |ss| ==> SortKey(StableSort(ss, Instant(parse))[i], parse).Success?
  {
    var out := StableSort(ss, Instant(parse));
    StableSortPermutes(ss, Instant(parse));
    forall i | 0 <= i < |ss| ensures SortKey(out[i], parse).Success? {
      assert out[i] in multiset(ss);
    }
  }

  /** After `write_to_csv`, the sessions are in ascending order of parsed `createdAt`. */
  lemma SortedSessionsAscending(ss: seq<Session>, parse: string -> Option<int>, i: nat, j: nat)
    requires SortKeys(ss, parse).Success?
    requires i < j < |ss|
    ensures SortKey(StableSort(ss, Instant(parse))[i], parse).Success? &&
            SortKey(StableSort(ss, Instant(parse))[j], parse).Success? &&
            SortKey(StableSort(ss, Instant(parse))[i], parse).value <=
            SortKey(StableSort(ss, Instant(parse))[j], parse).value
  {
    SortedSessionsKeyed(ss, parse);
    StableSortSorted(ss, Instant(parse));
  }

  /**
   * Sessions whose `createdAt` parses to the same instant `k` appear after the sort in
   * the order they had before it.
   */
  lemma SortedSessionsStable(ss: seq<Session>, parse: string -> Option<int>, k: int)
    requires SortKeys(ss, parse).Success?
    ensures KeyClass(StableSort(ss, Instant(parse)), Instant(parse), k) == KeyClass(ss, Instant(parse), k)
  {
    StableSortKeepsKeyClasses(ss, Instant(parse), k);
  }

  /**
   * The `''` default for `createdAt` is never written: a session whose key was computed
   * has a `createdAt` string, and its row's first cell is that string.
   */
  lemma CreatedAtNeverDefault(s: Session, parse: string -> Option<int>)
    requires SortKey(s, parse).Success?
    ensures "createdAt" in s && s["createdAt"].JStr?
    ensures RowOf(s)[0] == s["createdAt"].text
  {
  }

  /**
   * Every data row written after a successful sort starts with that session's
   * `createdAt` string: row `i + 1` is `RowOf` of the `i`-th sorted session.
   */
  lemma SortedRowsCreatedAt(ss: seq<Session>, parse: string -> Option<int>, i: nat)
    requires SortKeys(ss, parse).Success?
    requires i < |ss|
    ensures "createdAt" in StableSort<Session>(ss, Instant(parse))[i]
    ensures StableSort<Session>(ss, Instant(parse))[i]["createdAt"].JStr?
    ensures RowOf(StableSort<Session>(ss, Instant(parse))[i])[0] == StableSort<Session>(ss, Instant(parse))[i]["createdAt"].text
  {
    SortedSessionsKeyed(ss, parse);
    CreatedAtNeverDefault(StableSort<Session>(ss, Instant(parse))[i], parse);
  }
}
