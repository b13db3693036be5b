/**
 Retained-heap quotas for BSON values: an accumulator that stops at the first byte over the
 maximum and polls a caller-supplied check once per value.
 */
module RetainedMemory {
  import opened Machine
  import opened Bson
  import opened BsonStructure

  const OVERHEAD: nat := 128

  /** The plain size: fixed overhead per value and per document, plus every text and payload. */
  function Retained(v: Value): nat
    decreases v, 1
  {
    OVERHEAD + Payload(v)
  }

  function Payload(v: Value): nat
    decreases v, 0
  {
    match v
    case Str(text) => |Utf8(text)|
    case Document(doc) => RetainedDoc(doc)
    case Array(items) => RetainedItems(items)
    case Binary(_, bytes) => |bytes|
    case Regex(pattern, options) => |Utf8(pattern)| + |Utf8(options)|
    case JavaScript(code, None) => |Utf8(code)|
    case JavaScript(code, Some(scope)) => |Utf8(code)| + RetainedDoc(scope)
    case _ => 0
  }

  function RetainedDoc(doc: Doc): nat
    decreases doc, 1
  {
    OVERHEAD + RetainedEntries(doc.entries)
  }

  function RetainedEntries(entries: seq<Entry>): nat
    decreases entries, 0
  {
    if entries == [] then 0
    else
      var last := entries[|entries| - 1];
      RetainedEntries(entries[..|entries| - 1]) + |Utf8(last.name)| + Retained(last.value)
  }

  function RetainedItems(items: seq<Value>): nat
    decreases items, 0
  {
    if items == [] then 0 else RetainedItems(items[..|items| - 1]) + Retained(items[|items| - 1])
  }

  // ---------------------------------------------------------------- what the size measures

  /** 128 bytes for every value and every document, and every byte of a name or text. */
  const RETENTION: Weights := Weights(128, 128, 0, 0, 1, 1, 0)

  /** The plain size is the weighted count of the contents. */
  lemma RetainedContents(doc: Doc)
    ensures RetainedDoc(doc) == WeighDoc(RETENTION, doc)
  {
    RetainedDocWeighs(doc, RETENTION);
  }

  lemma {:induction false} RetainedWeighs(v: Value, w: Weights)
    requires w == RETENTION
    ensures Retained(v) == Weigh(w, v)
    decreases v, 0
  {
    match v
    case Document(doc) => RetainedDocWeighs(doc, w);
    case Array(items) => RetainedItemsWeigh(items, w);
    case JavaScript(_, Some(scope)) => RetainedDocWeighs(scope, w);
    case _ =>
  }

  lemma {:induction false} RetainedDocWeighs(doc: Doc, w: Weights)
    requires w == RETENTION
    ensures RetainedDoc(doc) == WeighDoc(w, doc)
    decreases doc, 1
  {
    RetainedEntriesWeigh(doc.entries, w);
  }

  lemma {:induction false} RetainedEntriesWeigh(entries: seq<Entry>, w: Weights)
    requires w == RETENTION
    ensures RetainedEntries(entries) == WeighEntries(w, entries)
    decreases entries, 0
  {
    if entries != [] {
      RetainedEntriesWeigh(entries[..|entries| - 1], w);
      RetainedWeighs(entries[|entries| - 1].value, w);
    }
  }

  lemma {:induction false} RetainedItemsWeigh(items: seq<Value>, w: Weights)
    requires w == RETENTION
    ensures RetainedItems(items) == WeighItems(w, items)
    decreases items, 0
  {
    if items != [] {
      RetainedItemsWeigh(items[..|items| - 1], w);
      RetainedWeighs(items[|items| - 1], w);
    }
  }

  /** The digits of array indexes, which are written but not retained. */
  const DIGITS: Weights := Weights(0, 0, 0, 0, 0, 0, 1)

  /**
   A document retains at least the bytes of its encoding, the digits of array indexes aside, and at most
   64 times as many.
   */
  lemma RetainedAgainstEncoding(doc: Doc)
    ensures |EncodeDoc(doc)| <= RetainedDoc(doc) + WeighDoc(DIGITS, doc)
    ensures RetainedDoc(doc) <= 64 * |EncodeDoc(doc)|
  {
    EncodedDocLength(doc);
    DocAgainstLength(doc, DIGITS);
  }

  lemma {:induction false} ValueAgainstLength(v: Value, w: Weights)
    requires w == DIGITS
    ensures ValueLen(v) + 2 <= Retained(v) + Weigh(w, v) && Retained(v) <= 64 * (ValueLen(v) + 2)
    decreases v, 0
  {
    match v
    case Document(doc) => DocAgainstLength(doc, w);
    case Array(items) => ItemsAgainstLength(items, w);
    case JavaScript(_, Some(scope)) => DocAgainstLength(scope, w);
    case _ =>
  }

  lemma {:induction false} DocAgainstLength(doc: Doc, w: Weights)
    requires w == DIGITS
    ensures DocLen(doc) + 123 <= RetainedDoc(doc) + WeighDoc(w, doc) && RetainedDoc(doc) + 192 <= 64 * DocLen(doc)
    decreases doc, 1
  {
    EntriesAgainstLength(doc.entries, w);
  }

  lemma {:induction false} EntriesAgainstLength(entries: seq<Entry>, w: Weights)
    requires w == DIGITS
    ensures EntriesLen(entries) <= RetainedEntries(entries) + WeighEntries(w, entries)
    ensures RetainedEntries(entries) <= 64 * EntriesLen(entries)
    decreases entries, 0
  {
    if entries != [] {
      EntriesAgainstLength(entries[..|entries| - 1], w);
      ValueAgainstLength(entries[|entries| - 1].value, w);
    }
  }

  lemma {:induction false} ItemsAgainstLength(items: seq<Value>, w: Weights)
    requires w == DIGITS
    ensures ItemsLen(items) <= RetainedItems(items) + WeighItems(w, items)
    ensures RetainedItems(items) <= 64 * ItemsLen(items)
    decreases items, 0
  {
    if items != [] {
      ItemsAgainstLength(items[..|items| - 1], w);
      ValueAgainstLength(items[|items| - 1], w);
    }
  }

  /** A value of one text retains its overhead and what its encoding holds besides the framing. */
  lemma TextRetained(v: Value)
    requires v.Str? || v.Binary? || v.Regex? || (v.JavaScript? && v.scope.None?)
    ensures var framing := if v.Regex? then 2 else if v.Binary? && v.subtype == 2 then 9 else 5;
            Retained(v) + framing == OVERHEAD + |EncodeValue(v)|
  {
    EncodedValueLength(v);
  }

  lemma {:induction false} RetainedEntriesMonotone(entries: seq<Entry>, n: nat)
    requires n <= |entries|
    ensures RetainedEntries(entries[..n]) <= RetainedEntries(entries)
    ensures ValuesInEntries(entries[..n]) <= ValuesInEntries(entries)
    decreases |entries| - n
  {
    if n == |entries| {
      assert entries[..n] == entries;
    } else {
      RetainedEntriesMonotone(entries, n + 1);
      assert entries[..n + 1][..n] == entries[..n];
    }
  }

  lemma {:induction false} RetainedItemsMonotone(items: seq<Value>, n: nat)
    requires n <= |items|
    ensures RetainedItems(items[..n]) <= RetainedItems(items)
    ensures ValuesInItems(items[..n]) <= ValuesInItems(items)
    decreases |items| - n
  {
    if n == |items| {
      assert items[..n] == items;
    } else {
      RetainedItemsMonotone(items, n + 1);
      assert items[..n + 1][..n] == items[..n];
    }
  }

  datatype Verdict = Charged | LimitExceeded | CheckFailed

  /** The accumulator, and how often the check has been polled; `failing(k)` is poll number `k`. */
  datatype Meter = Meter(bytes: usize, polls: nat)

  /** What charging `amount` for some values from `before` must have done: one poll per value, before its charge. */
  ghost predicate Outcome(before: Meter, amount: nat, values: nat, maximum: usize, failing: nat -> bool,
                          verdict: Verdict, after: Meter)
  {
    && before.bytes <= after.bytes <= maximum && before.polls <= after.polls <= before.polls + values
    && (verdict.Charged? ==> after.bytes == before.bytes + amount && after.polls == before.polls + values
                             && Passed(failing, before.polls, after.polls))
    && (verdict.LimitExceeded? ==> before.bytes + amount > maximum && Passed(failing, before.polls, after.polls))
    && (verdict.CheckFailed? ==> before.polls < after.polls && failing(after.polls - 1)
                                 && Passed(failing, before.polls, after.polls - 1))
    && OVERHEAD * (after.polls - before.polls)
       <= after.bytes - before.bytes + (if verdict.Charged? then 0 else OVERHEAD)
  }

  ghost predicate Passed(failing: nat -> bool, from: nat, to: nat) {
    forall k | from <= k < to :: !failing(k)
  }

  /** `add`: the total only moves if it neither overflows nor passes the maximum. */
  method Add(before: Meter, amount: nat, maximum: usize, ghost failing: nat -> bool)
    returns (verdict: Verdict, after: Meter)
    requires before.bytes <= maximum
    ensures Outcome(before, amount, 0, maximum, failing, verdict, after)
    ensures !verdict.CheckFailed?
    ensures verdict.Charged? <==> before.bytes + amount <= maximum
  {
    var total := CheckedAdd(before.bytes, amount);
    if total.None? || total.value > maximum {
      return LimitExceeded, before;
    }
    return Charged, before.(bytes := total.value);
  }

  /** One charge after another. */
  lemma Chained(before: Meter, first: nat, values: nat, middle: Meter, second: nat, more: nat, maximum: usize,
                failing: nat -> bool, verdict: Verdict, after: Meter)
    requires Outcome(before, first, values, maximum, failing, Charged, middle)
    requires Outcome(middle, second, more, maximum, failing, verdict, after)
    ensures Outcome(before, first + second, values + more, maximum, failing, verdict, after)
  {
  }

  /** A charge that stopped early stops a larger one as well. */
  lemma Stopped(before: Meter, amount: nat, values: nat, larger: nat, more: nat, maximum: usize,
                failing: nat -> bool, verdict: Verdict, after: Meter)
    requires Outcome(before, amount, values, maximum, failing, verdict, after) && !verdict.Charged?
    requires amount <= larger && values <= more
    ensures Outcome(before, larger, more, maximum, failing, verdict, after)
  {
  }

  method ChargeDocument(doc: Doc, before: Meter, maximum: usize, failing: nat -> bool)
    returns (verdict: Verdict, after: Meter)
    requires before.bytes <= maximum
    ensures Outcome(before, RetainedDoc(doc), ValuesInEntries(doc.entries), maximum, failing, verdict, after)
    decreases doc, 1
  {
    verdict, after := Add(before, OVERHEAD, maximum, failing);
    if !verdict.Charged? {
      return;
    }
    var entries := doc.entries;
    for i := 0 to |entries|
      invariant Outcome(before, OVERHEAD + RetainedEntries(entries[..i]), ValuesInEntries(entries[..i]),
                        maximum, failing, Charged, after)
    {
      ghost var middle := after;
      verdict, after := ChargeEntry(entries[i], after, maximum, failing);
      EntryRetained(entries, i);
      Chained(before, OVERHEAD + RetainedEntries(entries[..i]), ValuesInEntries(entries[..i]), middle,
              |Utf8(entries[i].name)| + Retained(entries[i].value), ValuesIn(entries[i].value),
              maximum, failing, verdict, after);
      if !verdict.Charged? {
        Stopped(before, OVERHEAD + RetainedEntries(entries[..i + 1]), ValuesInEntries(entries[..i + 1]),
                RetainedDoc(doc), ValuesInEntries(doc.entries), maximum, failing, verdict, after);
        return;
      }
    }
    assert entries[..|entries|] == entries;
    verdict := Charged;
  }

  lemma EntryRetained(entries: seq<Entry>, i: nat)
    requires i < |entries|
    ensures RetainedEntries(entries[..i + 1])
            == RetainedEntries(entries[..i]) + |Utf8(entries[i].name)| + Retained(entries[i].value)
    ensures ValuesInEntries(entries[..i + 1])
            == ValuesInEntries(entries[..i]) + ValuesIn(entries[i].value)
    ensures RetainedEntries(entries[..i + 1]) <= RetainedEntries(entries)
    ensures ValuesInEntries(entries[..i + 1]) <= ValuesInEntries(entries)
  {
    assert entries[..i + 1][..i] == entries[..i];
    RetainedEntriesMonotone(entries, i + 1);
  }

  /** One turn of the entry loop: the name, then the value. */
  method ChargeEntry(e: Entry, before: Meter, maximum: usize, failing: nat -> bool)
    returns (verdict: Verdict, after: Meter)
    requires before.bytes <= maximum
    ensures Outcome(before, |Utf8(e.name)| + Retained(e.value), ValuesIn(e.value), maximum, failing, verdict, after)
    decreases e, 0
  {
    verdict, after := Add(before, |Utf8(e.name)|, maximum, failing);
    if verdict.Charged? {
      ghost var middle := after;
      verdict, after := ChargeValue(e.value, after, maximum, failing);
      Chained(before, |Utf8(e.name)|, 0, middle, Retained(e.value), ValuesIn(e.value),
              maximum, failing, verdict, after);
    }
  }

  method ChargeItems(items: seq<Value>, before: Meter, maximum: usize, failing: nat -> bool)
    returns (verdict: Verdict, after: Meter)
    requires before.bytes <= maximum
    ensures Outcome(before, RetainedItems(items), ValuesInItems(items), maximum, failing, verdict, after)
    decreases items, 1
  {
    after := before;
    for i := 0 to |items|
      invariant Outcome(before, RetainedItems(items[..i]), ValuesInItems(items[..i]), maximum, failing,
                        Charged, after)
    {
      ghost var middle := after;
      verdict, after := ChargeValue(items[i], after, maximum, failing);
      ItemRetained(items, i);
      Chained(before, RetainedItems(items[..i]), ValuesInItems(items[..i]), middle,
              Retained(items[i]), ValuesIn(items[i]), maximum, failing, verdict, after);
      if !verdict.Charged? {
        Stopped(before, RetainedItems(items[..i + 1]), ValuesInItems(items[..i + 1]),
                RetainedItems(items), ValuesInItems(items), maximum, failing, verdict, after);
        return;
      }
    }
    assert items[..|items|] == items;
    verdict := Charged;
  }

  lemma ItemRetained(items: seq<Value>, i: nat)
    requires i < |items|
    ensures RetainedItems(items[..i + 1]) == RetainedItems(items[..i]) + Retained(items[i])
    ensures ValuesInItems(items[..i + 1]) == ValuesInItems(items[..i]) + ValuesIn(items[i])
    ensures RetainedItems(items[..i + 1]) <= RetainedItems(items)
    ensures ValuesInItems(items[..i + 1]) <= ValuesInItems(items)
  {
    RetainedItemsMonotone(items, i + 1);
    assert items[..i + 1][..i] == items[..i];
  }

  method ChargeValue(v: Value, before: Meter, maximum: usize, failing: nat -> bool)
    returns (verdict: Verdict, after: Meter)
    requires before.bytes <= maximum
    ensures Outcome(before, Retained(v), ValuesIn(v), maximum, failing, verdict, after)
    ensures failing(before.polls) ==> verdict == CheckFailed && after == before.(polls := before.polls + 1)
    decreases v, 3
  {
    verdict, after := Open(before, maximum, failing);
    ValuesInsideCount(v);
    if !verdict.Charged? {
      Stopped(before, OVERHEAD, 1, Retained(v), ValuesIn(v), maximum, failing, verdict, after);
      return;
    }
    ghost var middle := after;
    verdict, after := ChargePayload(v, after, maximum, failing);
    Chained(before, OVERHEAD, 1, middle, Payload(v), ValuesInside(v), maximum, failing, verdict, after);
  }

  /** Every value begins with one poll and its overhead. */
  method Open(before: Meter, maximum: usize, failing: nat -> bool) returns (verdict: Verdict, after: Meter)
    requires before.bytes <= maximum
    ensures Outcome(before, OVERHEAD, 1, maximum, failing, verdict, after)
    ensures failing(before.polls) ==> verdict == CheckFailed && after == before.(polls := before.polls + 1)
  {
    after := before.(polls := before.polls + 1);
    if failing(before.polls) {
      return CheckFailed, after;
    }
    verdict, after := Add(after, OVERHEAD, maximum, failing);
  }

  function ValuesInside(v: Value): nat {
    match v
    case Document(doc) => ValuesInEntries(doc.entries)
    case Array(items) => ValuesInItems(items)
    case JavaScript(_, Some(scope)) => ValuesInEntries(scope.entries)
    case _ => 0
  }

  lemma ValuesInsideCount(v: Value)
    ensures ValuesIn(v) == 1 + ValuesInside(v)
  {
  }

  /** The variable part of a value, by its type. */
  method ChargePayload(v: Value, before: Meter, maximum: usize, failing: nat -> bool)
    returns (verdict: Verdict, after: Meter)
    requires before.bytes <= maximum
    ensures Outcome(before, Payload(v), ValuesInside(v), maximum, failing, verdict, after)
    decreases v, 2
  {
    verdict, after := Charged, before;
    match v
    case Str(text) =>
      verdict, after := Add(after, |Utf8(text)|, maximum, failing);
    case Document(doc) =>
      verdict, after := ChargeDocument(doc, after, maximum, failing);
    case Array(items) =>
      verdict, after := ChargeItems(items, after, maximum, failing);
    case Binary(_, bytes) =>
      verdict, after := Add(after, |bytes|, maximum, failing);
    case Regex(pattern, options) =>
      verdict, after := ChargeRegex(pattern, options, after, maximum, failing);
    case JavaScript(code, scope) =>
      verdict, after := ChargeCode(code, scope, after, maximum, failing);
    case _ =>
  }

  method ChargeRegex(pattern: Text, options: Text, before: Meter, maximum: usize, failing: nat -> bool)
    returns (verdict: Verdict, after: Meter)
    requires before.bytes <= maximum
    ensures Outcome(before, |Utf8(pattern)| + |Utf8(options)|, 0, maximum, failing, verdict, after)
  {
    verdict, after := Add(before, |Utf8(pattern)|, maximum, failing);
    if verdict.Charged? {
      ghost var middle := after;
      verdict, after := Add(after, |Utf8(options)|, maximum, failing);
      Chained(before, |Utf8(pattern)|, 0, middle, |Utf8(options)|, 0, maximum, failing, verdict, after);
    }
  }

  /** The code text, then its scope if there is one. */
  method ChargeCode(code: Text, scope: Option<Doc>, before: Meter, maximum: usize, failing: nat -> bool)
    returns (verdict: Verdict, after: Meter)
    requires before.bytes <= maximum
    ensures Outcome(before, |Utf8(code)| + (if scope.Some? then RetainedDoc(scope.value) else 0),
                    if scope.Some? then ValuesInEntries(scope.value.entries) else 0, maximum, failing, verdict, after)
    decreases scope, 2
  {
    verdict, after := Add(before, |Utf8(code)|, maximum, failing);
    if verdict.Charged? && scope.Some? {
      ghost var middle := after;
      verdict, after := ChargeDocument(scope.value, after, maximum, failing);
      Chained(before, |Utf8(code)|, 0, middle, RetainedDoc(scope.value), ValuesInEntries(scope.value.entries),
              maximum, failing, verdict, after);
    }
  }

  /**
   `document_bytes`. With a check that never fails: the plain size exactly when it is within the
   maximum, otherwise the limit error. With any check and any document: the first failing poll is
   reported and nothing is polled after it, a result comes after one poll per value, and there are never
   more than that many, nor more than maximum / 128 + 1.
   */
  method DocumentBytes(doc: Doc, maximum: usize, failing: nat -> bool) returns (r: Result<nat, Verdict>, polls: nat)
    ensures (forall k: nat :: !failing(k)) ==>
              r == if RetainedDoc(doc) <= maximum then Ok(RetainedDoc(doc)) else Err(LimitExceeded)
    ensures r.Ok? ==> r.value == RetainedDoc(doc) <= maximum && Passed(failing, 0, polls)
    ensures r == Err(LimitExceeded) ==> RetainedDoc(doc) > maximum && Passed(failing, 0, polls)
    ensures r == Err(CheckFailed) ==> polls > 0 && failing(polls - 1) && Passed(failing, 0, polls - 1)
    ensures r != Err(Charged)
    ensures polls <= ValuesInEntries(doc.entries) && (r.Ok? ==> polls == ValuesInEntries(doc.entries))
    ensures polls <= maximum / OVERHEAD + 1
  {
    var verdict, after := ChargeDocument(doc, Meter(0, 0), maximum, failing);
    polls := after.polls;
    r := if verdict.Charged? then Ok(after.bytes) else Err(verdict);
  }

  /** `value_bytes`, with the same contract; the value's own poll comes before any charge. */
  method ValueBytes(v: Value, maximum: usize, failing: nat -> bool) returns (r: Result<nat, Verdict>, polls: nat)
    ensures (forall k: nat :: !failing(k)) ==>
              r == if Retained(v) <= maximum then Ok(Retained(v)) else Err(LimitExceeded)
    ensures r.Ok? ==> r.value == Retained(v) <= maximum && Passed(failing, 0, polls)
    ensures r == Err(LimitExceeded) ==> Retained(v) > maximum && Passed(failing, 0, polls)
    ensures r == Err(CheckFailed) ==> polls > 0 && failing(polls - 1) && Passed(failing, 0, polls - 1)
    ensures r != Err(Charged)
    ensures failing(0) ==> r == Err(CheckFailed) && polls == 1
    ensures polls <= ValuesIn(v) && (r.Ok? ==> polls == ValuesIn(v))
    ensures polls <= maximum / OVERHEAD + 1
  {
    var verdict, after := ChargeValue(v, Meter(0, 0), maximum, failing);
    polls := after.polls;
    r := if verdict.Charged? then Ok(after.bytes) else Err(verdict);
  }
}
