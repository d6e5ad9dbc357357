/**
 * The list processing of the journal-parsing agents (agents.py) after each
 * model reply has been decoded. The replies themselves are inputs: a decoded
 * JSON value, or `None` where `json.loads` raises. Python's behaviour on a
 * reply of the wrong shape is modelled exactly: `len` of a number raises
 * `TypeError`, indexing an object with an integer raises `KeyError`, `.get` on
 * a non-object raises `AttributeError`, and each agent's `except` then runs
 * its fallback (or, in `classify_branches`, keeps what was done so far).
 */
module Agents {
  import opened Wrappers

  /** A decoded JSON value as Python holds it. */
  datatype Json =
    | JNull
    | JBool(b: bool)
    | JInt(i: int)
    | JFloat(r: real)
    | JStr(s: string)
    | JArr(items: seq<Json>)
    | JObj(fields: map<string, Json>)

  /** Python's truth value of a decoded JSON value. */
  predicate Truthy(j: Json) {
    match j
    case JNull => false
    case JBool(b) => b
    case JInt(i) => i != 0
    case JFloat(r) => r != 0.0
    case JStr(s) => s != []
    case JArr(items) => items != []
    case JObj(fields) => fields != map[]
  }

  /** `len(j)`, or `None` where Python raises `TypeError`. */
  function PyLen(j: Json): (r: Option<nat>)
    ensures r.Some? <==> j.JStr? || j.JArr? || j.JObj?
  {
    match j
    case JStr(s) => Some(|s|)
    case JArr(items) => Some(|items|)
    case JObj(fields) => Some(|fields|)
    case _ => None
  }

  /** `j[i]` for `i < len(j)`, or `None` where Python raises (an object has no integer keys). */
  function PyIndex(j: Json, i: nat): (r: Option<Json>)
    requires PyLen(j).Some? && i < PyLen(j).value
    ensures r.Some? <==> !j.JObj?
  {
    match j
    case JStr(s) => Some(JStr([s[i]]))
    case JArr(items) => Some(items[i])
    case JObj(_) => None
  }

  /** `j.get(key, default)`, or `None` where Python raises `AttributeError`. */
  function PyGet(j: Json, key: string, default: Json): (r: Option<Json>)
    ensures r.Some? <==> j.JObj?
    ensures j.JObj? && key in j.fields ==> r == Some(j.fields[key])
    ensures j.JObj? && key !in j.fields ==> r == Some(default)
  {
    match j
    case JObj(fields) => Some(if key in fields then fields[key] else default)
    case _ => None
  }

  /** `@dataclass LifeEvent`: fields the agents fill in one after another. */
  class LifeEvent {
    var description: string
    var rawDate: Json
    var parsedDate: Json
    var commitMessage: Json
    var isMajorChange: bool

    constructor(description: string)
      ensures this.description == description
      ensures rawDate == JNull && parsedDate == JNull && commitMessage == JNull && !isMajorChange
    {
      this.description := description;
      rawDate := JNull;
      parsedDate := JNull;
      commitMessage := JNull;
      isMajorChange := false;
    }
  }

  /** The events of a list are distinct objects (each comes from its own constructor call). */
  predicate Distinct(events: seq<LifeEvent>) {
    forall i, j :: 0 <= i < j < |events| ==> events[i] != events[j]
  }

  // ------------------------------------------------ index-aligned assignment

  /**
   * The values the loop `for i, event in enumerate(events): if i < len(data):
   * event.<field> = data[i].get(key, defaults[i])` assigns to the first
   * `|defaults|` events, or `None` when some step raises.
   */
  function AlignedValues(data: Json, key: string, defaults: seq<Json>): (r: Option<seq<Json>>)
    ensures r.Some? ==> |r.value| <= |defaults|
  {
    if defaults == [] then Some([])
    else
      var n := |defaults| - 1;
      match AlignedValues(data, key, defaults[..n])
      case None => None
      case Some(values) =>
        match PyLen(data)
        case None => None
        case Some(len) =>
          if n < len then
            match PyIndex(data, n)
            case None => None
            case Some(item) =>
              match PyGet(item, key, defaults[n])
              case None => None
              case Some(v) => Some(values + [v])
          else Some(values)
  }

  /**
   * The loop succeeds exactly when the reply is a list, or a string or object
   * too short to reach its first step, whose reached items are objects; it then
   * assigns `data[i].get(key, defaults[i])` to the first `min(n, len(data))`
   * events and nothing to the rest.
   */
  lemma {:induction false} AlignedValuesSpec(data: Json, key: string, defaults: seq<Json>)
    ensures var r := AlignedValues(data, key, defaults);
      r.Some? <==> (defaults == [] || Aligns(data, |defaults|))
    ensures var r := AlignedValues(data, key, defaults);
      r.Some? && defaults != [] ==>
        && |r.value| == (if |defaults| < PyLen(data).value then |defaults| else PyLen(data).value)
        && forall i :: 0 <= i < |r.value| ==> data.JArr? && Some(r.value[i]) == PyGet(data.items[i], key, defaults[i])
  {
    if defaults != [] {
      var n := |defaults| - 1;
      var prefix := defaults[..n];
      AlignedValuesSpec(data, key, prefix);
      if prefix != [] {
        forall i | 0 <= i < |prefix| ensures prefix[i] == defaults[i] {
        }
      }
    }
  }

  /**
   * A reply the loop over `n > 0` events gets through: a list whose items
   * reached are objects, or an empty string or object.
   */
  predicate Aligns(data: Json, n: nat) {
    match data
    case JArr(items) => forall i :: 0 <= i < n && i < |items| ==> items[i].JObj?
    case JStr(s) => s == []
    case JObj(fields) => fields == map[]
    case _ => false
  }

  /** An event's value after the loop: the assigned value where one is assigned, its old value after that. */
  function AfterAssign(values: seq<Json>, i: nat, previous: Json): Json {
    if i < |values| then values[i] else previous
  }

  /**
   * `resolve_dates` after the reply: the i-th event gets `data[i].get('date')`
   * for `i < len(data)` and keeps its date otherwise; if decoding or any step
   * raises, every event gets the current day instead.
   */
  method ResolveDates(events: seq<LifeEvent>, reply: Option<Json>, currentDate: string)
    requires Distinct(events)
    modifies set i | 0 <= i < |events| :: events[i]
    ensures var r := if reply.Some? then AlignedValues(reply.value, "date", Nulls(|events|)) else None;
      forall i :: 0 <= i < |events| ==>
        && events[i].parsedDate == (if events == [] || r.Some? then AfterAssign(r.value, i, old(events[i].parsedDate)) else JStr(currentDate))
        && events[i].description == old(events[i].description)
        && events[i].rawDate == old(events[i].rawDate)
        && events[i].commitMessage == old(events[i].commitMessage)
        && events[i].isMajorChange == old(events[i].isMajorChange)
  {
    var failed := AssignAligned(events, reply, "date", Nulls(|events|), true);
    if failed {
      for i := 0 to |events|
        invariant forall k :: 0 <= k < i ==> events[k].parsedDate == JStr(currentDate)
        invariant forall k :: 0 <= k < |events| ==>
          && events[k].description == old(events[k].description)
          && events[k].rawDate == old(events[k].rawDate)
          && events[k].commitMessage == old(events[k].commitMessage)
          && events[k].isMajorChange == old(events[k].isMajorChange)
      {
        events[i].parsedDate := JStr(currentDate);
      }
    }
  }

  /** `None` for each of `n` events: what `.get('date')` returns for a missing key. */
  function Nulls(n: nat): (r: seq<Json>)
    ensures |r| == n && forall i :: 0 <= i < n ==> r[i] == JNull
  {
    seq(n, i => JNull)
  }

  /** The descriptions of the events, as JSON strings: the default of `.get('commit', event.description)`. */
  function Descriptions(events: seq<LifeEvent>): (r: seq<Json>)
    reads set i | 0 <= i < |events| :: events[i]
    ensures |r| == |events| && forall i :: 0 <= i < |events| ==> r[i] == JStr(events[i].description)
  {
    seq(|events|, i reads set i | 0 <= i < |events| :: events[i] requires 0 <= i < |events| => JStr(events[i].description))
  }

  /**
   * `generate_commits` after the reply: the i-th event gets
   * `data[i].get('commit', description)` for `i < len(data)` and keeps its
   * message otherwise; if decoding or any step raises, every event's message
   * becomes its description.
   */
  method GenerateCommits(events: seq<LifeEvent>, reply: Option<Json>)
    requires Distinct(events)
    modifies set i | 0 <= i < |events| :: events[i]
    ensures var r := if reply.Some? then AlignedValues(reply.value, "commit", old(Descriptions(events))) else None;
      forall i :: 0 <= i < |events| ==>
        && events[i].commitMessage == (if events == [] || r.Some? then AfterAssign(r.value, i, old(events[i].commitMessage)) else JStr(events[i].description))
        && events[i].description == old(events[i].description)
        && events[i].rawDate == old(events[i].rawDate)
        && events[i].parsedDate == old(events[i].parsedDate)
        && events[i].isMajorChange == old(events[i].isMajorChange)
  {
    var failed := AssignAligned(events, reply, "commit", Descriptions(events), false);
    if failed {
      for i := 0 to |events|
        invariant forall k :: 0 <= k < i ==> events[k].commitMessage == JStr(events[k].description)
        invariant forall k :: 0 <= k < |events| ==>
          && events[k].description == old(events[k].description)
          && events[k].rawDate == old(events[k].rawDate)
          && events[k].parsedDate == old(events[k].parsedDate)
          && events[k].isMajorChange == old(events[k].isMajorChange)
      {
        events[i].commitMessage := JStr(events[i].description);
      }
    }
  }

  /**
   * The shared `try` body of `resolve_dates` and `generate_commits`: assign
   * `data[i].get(key, defaults[i])` to the date (`toDate`) or the commit
   * message of each event with `i < len(data)`, stopping at the first step that
   * raises and reporting it.
   */
  method AssignAligned(events: seq<LifeEvent>, reply: Option<Json>, key: string, defaults: seq<Json>, toDate: bool)
    returns (failed: bool)
    requires Distinct(events) && |defaults| == |events|
    modifies set i | 0 <= i < |events| :: events[i]
    ensures var r := if reply.Some? then AlignedValues(reply.value, key, defaults) else None;
      failed <==> events != [] && r.None?
    ensures var r := if reply.Some? then AlignedValues(reply.value, key, defaults) else None;
      !failed ==> forall i :: 0 <= i < |events| ==>
        (toDate ==> events[i].parsedDate == AfterAssign(r.value, i, old(events[i].parsedDate)))
        && (!toDate ==> events[i].commitMessage == AfterAssign(r.value, i, old(events[i].commitMessage)))
    ensures forall i :: 0 <= i < |events| ==>
      && events[i].description == old(events[i].description)
      && events[i].rawDate == old(events[i].rawDate)
      && events[i].isMajorChange == old(events[i].isMajorChange)
      && (toDate ==> events[i].commitMessage == old(events[i].commitMessage))
      && (!toDate ==> events[i].parsedDate == old(events[i].parsedDate))
  {
    if reply.None? {
      return events != [];
    }
    var data := reply.value;
    failed := false;
    ghost var values: seq<Json> := [];
    var i := 0;
    while i < |events|
      invariant 0 <= i <= |events|
      invariant AlignedValues(data, key, defaults[..i]) == Some(values)
      invariant forall k :: 0 <= k < |events| ==>
        AssignedAt(events[k], toDate, values, k, old(events[k].parsedDate), old(events[k].commitMessage))
      invariant forall k :: 0 <= k < |events| ==>
        Kept(events[k], toDate, old(events[k].description), old(events[k].rawDate), old(events[k].isMajorChange),
             old(events[k].parsedDate), old(events[k].commitMessage))
    {
      assert defaults[..i + 1][..i] == defaults[..i];
      var len := PyLen(data);
      var item := if len.Some? && i < len.value then PyIndex(data, i) else None;
      var v := if item.Some? then PyGet(item.value, key, defaults[i]) else None;
      if len.None? || (i < len.value && v.None?) {
        AlignedFailsFrom(data, key, defaults, i + 1);
        return true;
      }
      if i < len.value {
        AlignedLength(data, key, defaults[..i]);
        assert |values| == i;
        WriteAt(events, i, v.value, toDate);
        forall k | 0 <= k < |events|
          ensures AssignedAt(events[k], toDate, values + [v.value], k, old(events[k].parsedDate), old(events[k].commitMessage))
          ensures Kept(events[k], toDate, old(events[k].description), old(events[k].rawDate), old(events[k].isMajorChange),
                       old(events[k].parsedDate), old(events[k].commitMessage))
        {
          if k != i {
            assert events[k] != events[i];
          }
        }
        values := values + [v.value];
      }
      i := i + 1;
    }
    assert defaults[..|events|] == defaults;
  }

  /** `event.<field> = v` for the `i`-th event: its date (`toDate`) or its commit message. */
  method WriteAt(events: seq<LifeEvent>, i: nat, v: Json, toDate: bool)
    requires i < |events|
    modifies events[i]
    ensures toDate ==> events[i].parsedDate == v && events[i].commitMessage == old(events[i].commitMessage)
    ensures !toDate ==> events[i].commitMessage == v && events[i].parsedDate == old(events[i].parsedDate)
    ensures events[i].description == old(events[i].description) && events[i].rawDate == old(events[i].rawDate)
    ensures events[i].isMajorChange == old(events[i].isMajorChange)
  {
    if toDate {
      events[i].parsedDate := v;
    } else {
      events[i].commitMessage := v;
    }
  }

  /** Event `e`, the `k`-th, holds what a run that assigned `values` leaves in the field it writes. */
  ghost predicate AssignedAt(e: LifeEvent, toDate: bool, values: seq<Json>, k: nat, oldDate: Json, oldMessage: Json)
    reads e
  {
    && (toDate ==> e.parsedDate == AfterAssign(values, k, oldDate))
    && (!toDate ==> e.commitMessage == AfterAssign(values, k, oldMessage))
  }

  /** Event `e` still holds its old values in the fields the run does not write. */
  ghost predicate Kept(e: LifeEvent, toDate: bool, description: string, rawDate: Json, isMajorChange: bool,
                      oldDate: Json, oldMessage: Json)
    reads e
  {
    && e.description == description
    && e.rawDate == rawDate
    && e.isMajorChange == isMajorChange
    && (toDate ==> e.commitMessage == oldMessage)
    && (!toDate ==> e.parsedDate == oldDate)
  }

  /** Once a step raises, every longer run raises too. */
  lemma {:induction false} AlignedFailsFrom(data: Json, key: string, defaults: seq<Json>, m: nat)
    requires m <= |defaults| && AlignedValues(data, key, defaults[..m]).None?
    ensures AlignedValues(data, key, defaults).None?
    decreases |defaults| - m
  {
    if m < |defaults| {
      var next := defaults[..m + 1];
      assert next[..m] == defaults[..m];
      AlignedFailsFrom(data, key, defaults, m + 1);
    } else {
      assert defaults[..m] == defaults;
    }
  }

  /** A successful run assigns to one event per step while `i < len(data)`. */
  lemma {:induction false} AlignedLength(data: Json, key: string, defaults: seq<Json>)
    requires AlignedValues(data, key, defaults).Some?
    ensures var n := |AlignedValues(data, key, defaults).value|;
      n == |defaults| || (PyLen(data).Some? && n == PyLen(data).value)
    ensures defaults != [] && PyLen(data).Some? && |defaults| <= PyLen(data).value ==>
      |AlignedValues(data, key, defaults).value| == |defaults|
  {
    if defaults != [] {
      AlignedLength(data, key, defaults[..|defaults| - 1]);
    }
  }

  // --------------------------------------------------------- classification

  /** How far the loop `for i in data: if 0 <= i < n: events[i].is_major_change = True` gets over one item. */
  datatype Mark = Marks(index: nat) | Skips | Raises

  /** One item of the index list: an in-range integer (or boolean) is marked, an out-of-range number skipped, anything else raises. */
  function MarkOf(item: Json, n: nat): (r: Mark)
    ensures r.Marks? ==> r.index < n
  {
    match item
    case JInt(i) => if 0 <= i < n then Marks(i) else Skips
    case JBool(b) => var i := if b then 1 else 0; if i < n then Marks(i) else Skips
    case JFloat(r) => if 0.0 <= r < n as real then Raises else Skips
    case _ => Raises
  }

  /** The items the loop visits: a list's elements; an empty string or object gives none; anything else raises at once. */
  function Iterated(data: Json): Option<seq<Json>> {
    match data
    case JArr(items) => Some(items)
    case JStr(s) => if s == [] then Some([]) else None
    case JObj(fields) => if fields == map[] then Some([]) else None
    case _ => None
  }

  /** The indices marked before the first item that raises. */
  function Marked(items: seq<Json>, n: nat): (r: set<nat>)
    ensures forall i :: i in r ==> i < n
  {
    if items == [] then {}
    else
      match MarkOf(items[0], n)
      case Raises => {}
      case Skips => Marked(items[1..], n)
      case Marks(i) => {i} + Marked(items[1..], n)
  }

  /** `classify_branches` after the reply: marked events become major changes; nothing else changes. */
  function MarkedByReply(reply: Option<Json>, n: nat): set<nat> {
    if reply.Some? && Iterated(reply.value).Some? then Marked(Iterated(reply.value).value, n) else {}
  }

  /**
   * An index is marked exactly when it is in range and is listed before the
   * first item that makes the loop raise (a string, null, a list, an object, or
   * an in-range float).
   */
  lemma {:induction false} MarkedExactly(items: seq<Json>, n: nat, i: nat)
    ensures i in Marked(items, n) <==>
      exists k :: 0 <= k < |items| && MarkOf(items[k], n) == Marks(i)
        && forall j :: 0 <= j < k ==> !MarkOf(items[j], n).Raises?
  {
    if items != [] {
      MarkedExactly(items[1..], n, i);
      var m := MarkOf(items[0], n);
      if i in Marked(items, n) && m != Marks(i) {
        var k :| 0 <= k < |items[1..]| && MarkOf(items[1..][k], n) == Marks(i)
          && forall j :: 0 <= j < k ==> !MarkOf(items[1..][j], n).Raises?;
        assert MarkOf(items[k + 1], n) == Marks(i);
        forall j | 0 <= j < k + 1 ensures !MarkOf(items[j], n).Raises? {
          if j > 0 {
            assert items[j] == items[1..][j - 1];
          }
        }
      }
      if exists k :: 0 <= k < |items| && MarkOf(items[k], n) == Marks(i) && forall j :: 0 <= j < k ==> !MarkOf(items[j], n).Raises? {
        var k :| 0 <= k < |items| && MarkOf(items[k], n) == Marks(i) && forall j :: 0 <= j < k ==> !MarkOf(items[j], n).Raises?;
        if k > 0 {
          assert MarkOf(items[1..][k - 1], n) == Marks(i);
          forall j | 0 <= j < k - 1 ensures !MarkOf(items[1..][j], n).Raises? {
            assert items[1..][j] == items[j + 1];
          }
        }
      }
    }
  }

  /** `classify_branches`: events listed by in-range index become major changes; every other event is unchanged. */
  method ClassifyBranches(events: seq<LifeEvent>, reply: Option<Json>)
    requires Distinct(events)
    modifies set i | 0 <= i < |events| :: events[i]
    ensures forall i :: 0 <= i < |events| ==>
      && events[i].isMajorChange == (old(events[i].isMajorChange) || i in MarkedByReply(reply, |events|))
      && events[i].description == old(events[i].description)
      && events[i].rawDate == old(events[i].rawDate)
      && events[i].parsedDate == old(events[i].parsedDate)
      && events[i].commitMessage == old(events[i].commitMessage)
  {
    if reply.None? || Iterated(reply.value).None? {
      return;
    }
    var items := Iterated(reply.value).value;
    var n := |events|;
    var k := 0;
    while k < |items|
      invariant 0 <= k <= |items|
      invariant Marked(items, n) == MarkedBefore(items, n, k) + Marked(items[k..], n)
      invariant forall i :: 0 <= i < n ==>
        MajorAt(events[i], old(events[i].isMajorChange), MarkedBefore(items, n, k), i)
      invariant forall i :: 0 <= i < n ==>
        Untouched(events[i], old(events[i].description), old(events[i].rawDate), old(events[i].parsedDate),
                  old(events[i].commitMessage))
    {
      var m := MarkOf(items[k], n);
      MarkedStep(items, n, k);
      if m.Raises? {
        MarkedRaises(items[k..], n);
        return;
      }
      if m.Marks? {
        events[m.index].isMajorChange := true;
        forall i | 0 <= i < n
          ensures MajorAt(events[i], old(events[i].isMajorChange), MarkedBefore(items, n, k + 1), i)
        {
          if i != m.index {
            assert events[i] != events[m.index];
          }
        }
      }
      k := k + 1;
    }
    assert items[k..] == [];
  }

  /** Event `e`, the `i`-th, is a major change exactly when it was one or its index is marked. */
  ghost predicate MajorAt(e: LifeEvent, wasMajor: bool, marked: set<nat>, i: nat)
    reads e
  {
    e.isMajorChange == (wasMajor || i in marked)
  }

  /** Event `e` still holds its old values in every field but `isMajorChange`. */
  ghost predicate Untouched(e: LifeEvent, description: string, rawDate: Json, parsedDate: Json, commitMessage: Json)
    reads e
  {
    && e.description == description
    && e.rawDate == rawDate
    && e.parsedDate == parsedDate
    && e.commitMessage == commitMessage
  }

  /** The indices the loop has marked after `k` items, as long as none raised. */
  function MarkedBefore(items: seq<Json>, n: nat, k: nat): set<nat>
    requires k <= |items|
  {
    if k == 0 then {}
    else
      match MarkOf(items[k - 1], n)
      case Marks(i) => MarkedBefore(items, n, k - 1) + {i}
      case _ => MarkedBefore(items, n, k - 1)
  }

  lemma MarkedStep(items: seq<Json>, n: nat, k: nat)
    requires k < |items|
    ensures !MarkOf(items[k], n).Raises? ==>
      Marked(items[k..], n) == (if MarkOf(items[k], n).Marks? then {MarkOf(items[k], n).index} else {}) + Marked(items[k + 1..], n)
    ensures MarkedBefore(items, n, k + 1) ==
      MarkedBefore(items, n, k) + (if MarkOf(items[k], n).Marks? then {MarkOf(items[k], n).index} else {})
  {
    assert items[k..][1..] == items[k + 1..];
  }

  lemma MarkedRaises(items: seq<Json>, n: nat)
    requires items != [] && MarkOf(items[0], n).Raises?
    ensures Marked(items, n) == {}
  {
  }

  // ------------------------------------------------------------- validation

  /** The event has a truthy commit message and a truthy date. */
  predicate Complete(e: LifeEvent)
    reads e
  {
    Truthy(e.commitMessage) && Truthy(e.parsedDate)
  }

  /** The complete events, in order. */
  function CompleteEvents(events: seq<LifeEvent>): seq<LifeEvent>
    reads set i | 0 <= i < |events| :: events[i]
  {
    if events == [] then []
    else
      var prev := CompleteEvents(events[..|events| - 1]);
      var e := events[|events| - 1];
      if Complete(e) then prev + [e] else prev
  }

  /**
   * The complete events are exactly the events that are complete, each as many
   * times as the list holds it, in their original order.
   */
  lemma CompleteEventsExactly(events: seq<LifeEvent>)
    ensures forall e :: e in CompleteEvents(events) <==> e in events && Complete(e)
    ensures forall e :: multiset(CompleteEvents(events))[e] == if Complete(e) then multiset(events)[e] else 0
    ensures IsSubsequence(CompleteEvents(events), events)
  {
    CompleteEventsMembers(events);
    CompleteEventsCounts(events);
    CompleteEventsOrdered(events);
  }

  /** An event listed several times is kept that many times when complete, and never otherwise. */
  lemma {:induction false} CompleteEventsCounts(events: seq<LifeEvent>)
    ensures forall e :: multiset(CompleteEvents(events))[e] == if Complete(e) then multiset(events)[e] else 0
  {
    if events != [] {
      var prev := events[..|events| - 1];
      var last := events[|events| - 1];
      CompleteEventsCounts(prev);
      assert events == prev + [last];
      assert multiset(events) == multiset(prev) + multiset{last};
    }
  }

  lemma {:induction false} CompleteEventsMembers(events: seq<LifeEvent>)
    ensures forall e :: e in CompleteEvents(events) <==> e in events && Complete(e)
  {
    if events != [] {
      var prev := events[..|events| - 1];
      var e := events[|events| - 1];
      CompleteEventsMembers(prev);
      assert events == prev + [e];
    }
  }

  lemma {:induction false} CompleteEventsOrdered(events: seq<LifeEvent>)
    ensures IsSubsequence(CompleteEvents(events), events)
  {
    if events == [] {
      EmptySubsequence(events);
    } else {
      var prev := events[..|events| - 1];
      var e := events[|events| - 1];
      CompleteEventsOrdered(prev);
      assert CompleteEvents(events) == if Complete(e) then CompleteEvents(prev) + [e] else CompleteEvents(prev);
      SubsequenceSnoc(CompleteEvents(prev), prev, e, Complete(e));
      assert prev + [e] == events;
    }
  }

  /** `sub` is `s` with some elements left out: each element of `sub` sits at a strictly later position of `s`. */
  ghost predicate IsSubsequence<T>(sub: seq<T>, s: seq<T>) {
    exists idx: seq<nat> :: |idx| == |sub|
      && (forall i :: 0 <= i < |idx| ==> idx[i] < |s| && sub[i] == s[idx[i]])
      && (forall i, j :: 0 <= i < j < |idx| ==> idx[i] < idx[j])
  }

  lemma EmptySubsequence<T>(s: seq<T>)
    ensures IsSubsequence([], s)
  {
    var idx: seq<nat> := [];
    assert |idx| == 0;
  }

  lemma SubsequenceSnoc<T>(sub: seq<T>, s: seq<T>, x: T, keep: bool)
    requires IsSubsequence(sub, s)
    ensures IsSubsequence(if keep then sub + [x] else sub, s + [x])
  {
    var idx: seq<nat> :| |idx| == |sub|
      && (forall i :: 0 <= i < |idx| ==> idx[i] < |s| && sub[i] == s[idx[i]])
      && (forall i, j :: 0 <= i < j < |idx| ==> idx[i] < idx[j]);
    var t := s + [x];
    assert forall i :: 0 <= i < |idx| ==> idx[i] < |t| && sub[i] == t[idx[i]];
    if keep {
      var idx' := idx + [|s|];
      assert forall i :: 0 <= i < |idx'| ==> idx'[i] < |t| && (sub + [x])[i] == t[idx'[i]];
    }
  }

  /** `validate_output`: the complete events in order, or the original list when none is complete. */
  method ValidateOutput(events: seq<LifeEvent>) returns (r: seq<LifeEvent>)
    ensures CompleteEvents(events) != [] ==> r == CompleteEvents(events)
    ensures CompleteEvents(events) == [] ==> r == events
  {
    var filtered: seq<LifeEvent> := [];
    for i := 0 to |events|
      invariant filtered == CompleteEvents(events[..i])
    {
      assert events[..i + 1][..i] == events[..i];
      if Truthy(events[i].commitMessage) && Truthy(events[i].parsedDate) {
        filtered := filtered + [events[i]];
      }
    }
    assert events[..|events|] == events;
    r := if filtered != [] then filtered else events;
  }

  // ------------------------------------------------------------- formatting

  /** The dictionary handed to the repository builder for one event. */
  datatype GitEvent = GitEvent(commitMessage: Json, date: Json, description: string, isMajorChange: bool)

  /** `format_for_git_creation`: one dictionary per event, in order, each field copied. */
  function FormatForGitCreation(events: seq<LifeEvent>): (r: seq<GitEvent>)
    reads set i | 0 <= i < |events| :: events[i]
    ensures |r| == |events|
    ensures forall i :: 0 <= i < |events| ==>
      r[i] == GitEvent(events[i].commitMessage, events[i].parsedDate, events[i].description, events[i].isMajorChange)
  {
    seq(|events|, i reads set i | 0 <= i < |events| :: events[i] requires 0 <= i < |events| =>
      GitEvent(events[i].commitMessage, events[i].parsedDate, events[i].description, events[i].isMajorChange))
  }
}
