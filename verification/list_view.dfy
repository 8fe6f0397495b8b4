/**
 * The agenda list of src/components/CalendarListView.tsx: events grouped
 * under their date label, the groups in order of first appearance (a
 * JavaScript `Map` iterates in insertion order), each group in input order.
 */
module ListView {
  import opened Wrappers
  import opened Seqs
  import opened CalendarData

  /** An event whose date label is `key`. */
  function HasKey(key: string): CalEvent -> bool {
    (e: CalEvent) => e.dateKey == key
  }

  function DateKey(e: CalEvent): string { e.dateKey }

  /** The date labels of `events`, each once, in order of first appearance. */
  function FirstKeys(events: seq<CalEvent>): (r: seq<string>)
    ensures forall i, j :: 0 <= i < j < |r| ==> r[i] != r[j]
    ensures forall k :: k in r <==> k in Map(events, DateKey)
    decreases |events|
  {
    if events == [] then []
    else
      var init := events[..|events| - 1];
      var e := events[|events| - 1];
      assert Map(events, DateKey) == Map(init, DateKey) + [e.dateKey];
      var keys := FirstKeys(init);
      if e.dateKey in keys then keys else keys + [e.dateKey]
  }

  lemma FirstKeysSnoc(events: seq<CalEvent>, e: CalEvent)
    ensures FirstKeys(events + [e])
      == if e.dateKey in FirstKeys(events) then FirstKeys(events) else FirstKeys(events) + [e.dateKey]
  {
    assert (events + [e])[..|events + [e]| - 1] == events;
  }

  /** The events labelled `key`, in input order: the group the list shows under that label. */
  function Group(events: seq<CalEvent>, key: string): seq<CalEvent>
    decreases |events|
  {
    if events == [] then []
    else
      var e := events[|events| - 1];
      Group(events[..|events| - 1], key) + (if e.dateKey == key then [e] else [])
  }

  lemma GroupSnoc(events: seq<CalEvent>, e: CalEvent, key: string)
    ensures Group(events + [e], key) == Group(events, key) + (if e.dateKey == key then [e] else [])
  {
    assert (events + [e])[..|events + [e]| - 1] == events;
  }

  /** A group is the input filtered by its label. */
  lemma {:induction false} GroupIsFilter(events: seq<CalEvent>, key: string)
    ensures Group(events, key) == Filter(events, HasKey(key))
    decreases |events|
  {
    if events != [] {
      var init := events[..|events| - 1];
      var e := events[|events| - 1];
      assert events == init + [e];
      GroupIsFilter(init, key);
      GroupSnoc(init, e, key);
      FilterSnoc(init, e, HasKey(key));
    }
  }

  /** A label that is not among the first keys labels no event. */
  lemma {:induction false} UnseenKey(events: seq<CalEvent>, key: string)
    requires key !in FirstKeys(events)
    ensures Group(events, key) == []
    decreases |events|
  {
    if events != [] {
      var init := events[..|events| - 1];
      var e := events[|events| - 1];
      assert events == init + [e];
      FirstKeysSnoc(init, e);
      UnseenKey(init, key);
      GroupSnoc(init, e, key);
    }
  }

  /** `keys` and `groups` are the `grouped` map built from `events`. */
  ghost predicate GroupsOf(keys: seq<string>, groups: map<string, seq<CalEvent>>, events: seq<CalEvent>) {
    && keys == FirstKeys(events)
    && (forall k :: k in groups <==> k in keys)
    && (forall k :: k in groups ==> groups[k] == Group(events, k))
  }

  /** Pushing the next event onto the existing group of its label keeps the grouping right. */
  lemma GroupStepOld(keys: seq<string>, groups: map<string, seq<CalEvent>>, events: seq<CalEvent>, e: CalEvent)
    requires GroupsOf(keys, groups, events)
    requires e.dateKey in groups
    ensures GroupsOf(keys, groups[e.dateKey := groups[e.dateKey] + [e]], events + [e])
  {
    var grown := groups[e.dateKey := groups[e.dateKey] + [e]];
    FirstKeysSnoc(events, e);
    forall k | k in grown
      ensures grown[k] == Group(events + [e], k)
    {
      GroupSnoc(events, e, k);
    }
  }

  /** An event with an unseen label starts a new group, and its label goes to the end of the keys. */
  lemma GroupStepNew(keys: seq<string>, groups: map<string, seq<CalEvent>>, events: seq<CalEvent>, e: CalEvent)
    requires GroupsOf(keys, groups, events)
    requires e.dateKey !in groups
    ensures GroupsOf(keys + [e.dateKey], groups[e.dateKey := [e]], events + [e])
  {
    var grown := groups[e.dateKey := [e]];
    FirstKeysSnoc(events, e);
    UnseenKey(events, e.dateKey);
    forall k | k in grown
      ensures grown[k] == Group(events + [e], k)
    {
      GroupSnoc(events, e, k);
    }
  }

  /** The grouping loop. */
  method GroupByKey(events: seq<CalEvent>) returns (keys: seq<string>, groups: map<string, seq<CalEvent>>)
    ensures keys == FirstKeys(events)
    ensures forall k :: k in groups <==> k in keys
    ensures forall k :: k in groups ==> groups[k] == Filter(events, HasKey(k))
  {
    keys := [];
    groups := map[];
    var i := 0;
    while i < |events|
      invariant 0 <= i <= |events|
      invariant GroupsOf(keys, groups, events[..i])
    {
      var e := events[i];
      assert events[..i + 1] == events[..i] + [e];
      if e.dateKey in groups {
        GroupStepOld(keys, groups, events[..i], e);
        groups := groups[e.dateKey := groups[e.dateKey] + [e]];
      } else {
        GroupStepNew(keys, groups, events[..i], e);
        keys := keys + [e.dateKey];
        groups := groups[e.dateKey := [e]];
      }
      i := i + 1;
    }
    assert events[..|events|] == events;
    forall k | k in groups
      ensures groups[k] == Filter(events, HasKey(k))
    {
      GroupIsFilter(events, k);
    }
  }

  /** The sizes of the groups of `keys`. */
  function GroupTotal(keys: seq<string>, events: seq<CalEvent>): nat
    decreases |keys|
  {
    if keys == [] then 0
    else GroupTotal(keys[..|keys| - 1], events) + |Group(events, keys[|keys| - 1])|
  }

  lemma {:induction false} TotalSnoc(keys: seq<string>, events: seq<CalEvent>, e: CalEvent)
    requires forall i, j :: 0 <= i < j < |keys| ==> keys[i] != keys[j]
    ensures GroupTotal(keys, events + [e]) == GroupTotal(keys, events) + (if e.dateKey in keys then 1 else 0)
    decreases |keys|
  {
    if keys != [] {
      var init := keys[..|keys| - 1];
      var last := keys[|keys| - 1];
      assert keys == init + [last];
      TotalSnoc(init, events, e);
      GroupSnoc(events, e, last);
      assert e.dateKey in keys <==> e.dateKey in init || e.dateKey == last;
    }
  }

  /** Every event is listed exactly once: the group sizes add up to the number of events. */
  lemma {:induction false} GroupsCoverAll(events: seq<CalEvent>)
    ensures GroupTotal(FirstKeys(events), events) == |events|
    decreases |events|
  {
    if events != [] {
      var init := events[..|events| - 1];
      var e := events[|events| - 1];
      assert events == init + [e];
      GroupsCoverAll(init);
      FirstKeysSnoc(init, e);
      var keys := FirstKeys(init);
      TotalSnoc(keys, init, e);
      if e.dateKey !in keys {
        TotalAppendKey(keys, e.dateKey, events);
        UnseenKey(init, e.dateKey);
        GroupSnoc(init, e, e.dateKey);
        assert |Group(events, e.dateKey)| == 1;
      }
    }
  }

  lemma TotalAppendKey(keys: seq<string>, key: string, events: seq<CalEvent>)
    ensures GroupTotal(keys + [key], events) == GroupTotal(keys, events) + |Group(events, key)|
  {
    assert (keys + [key])[..|keys + [key]| - 1] == keys;
  }

  /** Each event sits in the group of its own label and in no other. */
  lemma GroupMembership(events: seq<CalEvent>, e: CalEvent, k: string)
    requires e in events
    ensures e in Filter(events, HasKey(k)) <==> e.dateKey == k
  {
  }

  /** What the list renders: the empty-state message, or the date groups in order. */
  datatype ListContent = NoEvents | Groups(entries: seq<(string, seq<CalEvent>)>)

  method RenderList(events: seq<CalEvent>) returns (v: ListContent)
    ensures v.NoEvents? <==> events == []
    ensures v.Groups? ==> |v.entries| == |FirstKeys(events)|
    ensures v.Groups? ==> forall i :: 0 <= i < |v.entries| ==>
      v.entries[i] == (FirstKeys(events)[i], Filter(events, HasKey(FirstKeys(events)[i])))
  {
    if |events| == 0 {
      return NoEvents;
    }
    var keys, groups := GroupByKey(events);
    var entries := seq(|keys|, i requires 0 <= i < |keys| => (keys[i], groups[keys[i]]));
    v := Groups(entries);
  }

  const MaxDescriptionLength := 120

  /** A description longer than 120 code units is cut to 120 and followed by an ellipsis. */
  function Truncate(d: string): (r: string)
    ensures |d| <= MaxDescriptionLength ==> r == d
    ensures |d| > MaxDescriptionLength ==>
      (|r| == MaxDescriptionLength + 1 && r[..MaxDescriptionLength] == d[..MaxDescriptionLength]
        && r[MaxDescriptionLength] == '…')
  {
    if |d| > MaxDescriptionLength then d[..MaxDescriptionLength] + "…" else d
  }
}
