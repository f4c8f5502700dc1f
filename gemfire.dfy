/** The parts of the cache that the three server functions consume: the values
    stored in a region, the region hierarchy, and the result sender through
    which a function hands its answer back to the caller. The cache itself,
    the object sizers and the query service are external; the model receives
    what they report. */
module Gemfire {

  datatype Option<+T> = None | Some(value: T)

  datatype Result<+R, +E> = Ok(value: R) | Err(error: E)

  /** Keys are shown by their string form (`key.toString()`). */
  type Key = string

  /** A cached value as an object graph: the simple name of its class and the
      objects its fields reference. Only the sizers look inside it. */
  datatype Value = Value(className: string, fields: seq<Value>)

  /** What the deep object-graph sizer reports for one value: its footprint
      in bytes, or the message of the exception it throws. */
  datatype Measure = Bytes(n: nat) | Thrown(message: string)

  /** One entry of a region; a `None` value is a key whose value is null. */
  datatype Entry = Entry(key: Key, value: Option<Value>)

  /** A region: its short name, its full path, its entries in the order its
      key set iterates them, and its direct subregions in the order the
      subregion set iterates them. */
  datatype Region = Region(name: string, fullPath: string, entries: seq<Entry>, subregions: seq<Region>)

  /** The entries whose value is not null, in iteration order. */
  function Present(entries: seq<Entry>): (r: seq<Entry>)
    ensures |r| <= |entries|
  {
    if entries == [] then []
    else if entries[0].value.Some? then [entries[0]] + Present(entries[1..])
    else Present(entries[1..])
  }

  /** Present keeps exactly the entries whose value is not null. */
  lemma {:induction false} PresentMembers(entries: seq<Entry>, e: Entry)
    ensures e in Present(entries) <==> e in entries && e.value.Some?
  {
    if entries != [] {
      PresentMembers(entries[1..], e);
      assert entries == [entries[0]] + entries[1..];
    }
  }

  /** Present distributes over concatenation, so it can be built entry by entry. */
  lemma {:induction false} PresentAppend(xs: seq<Entry>, ys: seq<Entry>)
    ensures Present(xs + ys) == Present(xs) + Present(ys)
  {
    if xs == [] {
      assert xs + ys == ys;
    } else {
      assert (xs + ys)[1..] == xs[1..] + ys;
      PresentAppend(xs[1..], ys);
    }
  }

  function Min(a: nat, b: nat): nat
  {
    if a < b then a else b
  }

  /** The first k entries whose value is not null. */
  function FirstPresent(entries: seq<Entry>, k: nat): (r: seq<Entry>)
    ensures |r| <= k
  {
    Present(entries)[..Min(k, |Present(entries)|)]
  }

  /** The non-null entries of a prefix are a prefix of the non-null entries. */
  lemma PresentPrefix(entries: seq<Entry>, index: nat)
    requires index <= |entries|
    ensures Present(entries) == Present(entries[..index]) + Present(entries[index..])
  {
    assert entries == entries[..index] + entries[index..];
    PresentAppend(entries[..index], entries[index..]);
  }

  /** Extending the walk by one entry extends the non-null entries by that
      entry when its value is not null. */
  lemma PresentStep(entries: seq<Entry>, index: nat)
    requires index < |entries|
    ensures Present(entries[..index + 1]) ==
      Present(entries[..index]) + (if entries[index].value.Some? then [entries[index]] else [])
  {
    PresentAppend(entries[..index], [entries[index]]);
    assert entries[..index + 1] == entries[..index] + [entries[index]];
  }

  /** A walk that has met exactly k non-null entries has met the first k. */
  lemma FirstPresentReached(entries: seq<Entry>, index: nat, met: seq<Entry>, k: nat)
    requires index <= |entries|
    requires met == Present(entries[..index]) && |met| == k
    ensures met == FirstPresent(entries, k)
  {
    PresentPrefix(entries, index);
  }

  /** A walk that stopped after meeting k non-null entries, or at the end
      with at most k of them, has met the first k. */
  lemma FirstPresentFound(entries: seq<Entry>, index: nat, met: seq<Entry>, k: nat)
    requires index <= |entries| && met == Present(entries[..index]) && |met| <= k
    requires |met| == k || index == |entries|
    ensures met == FirstPresent(entries, k)
  {
    if |met| == k {
      FirstPresentReached(entries, index, met, k);
    } else {
      assert entries[..index] == entries;
    }
  }

  /** One message handed to the result sender: `sendResult` or `lastResult`. */
  datatype Message<T> = Send(payload: T) | Last(payload: T)

  /** A reply stream is closed when it ends with exactly one `lastResult`. */
  ghost predicate Closed<T>(sent: seq<Message<T>>)
  {
    && |sent| > 0
    && sent[|sent| - 1].Last?
    && forall i :: 0 <= i < |sent| - 1 ==> sent[i].Send?
  }

  /** The result sender of a function execution, as the list of messages it
      has been given. */
  class Sender<T> {
    var sent: seq<Message<T>>

    constructor ()
      ensures sent == []
    {
      sent := [];
    }

    method SendResult(x: T)
      modifies this
      ensures sent == old(sent) + [Send(x)]
    {
      sent := sent + [Send(x)];
    }

    method LastResult(x: T)
      modifies this
      ensures sent == old(sent) + [Last(x)]
    {
      sent := sent + [Last(x)];
    }
  }
}
