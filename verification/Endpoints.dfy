/** The endpoints of a connection: an array sorted by outgoing channel, with the lowest free channel for a new one. */
module Endpoints {

  // ---------------------------------------------------------------- channels

  predicate Sorted(cs: seq<nat>) {
    forall i, j :: 0 <= i < j < |cs| ==> cs[i] < cs[j]
  }

  /** Where the search for a gap stops. */
  function Gap(cs: seq<nat>, from: nat): (i: nat)
    requires from <= |cs|
    ensures from <= i <= |cs|
    ensures forall k :: from <= k < i ==> cs[k] <= k
    ensures i < |cs| ==> cs[i] > i
    decreases |cs| - from
  {
    if from == |cs| || cs[from] > from then from else Gap(cs, from + 1)
  }

  lemma {:induction false} SortedAbove(cs: seq<nat>, k: nat)
    requires Sorted(cs) && k < |cs|
    ensures cs[k] >= k
    decreases k
  {
    if k > 0 {
      SortedAbove(cs, k - 1);
      assert cs[k - 1] < cs[k];
    }
  }

  function Inserted(cs: seq<nat>, c: nat): (t: seq<nat>)
    requires c <= |cs|
    ensures |t| == |cs| + 1
    ensures forall k :: 0 <= k < |t| ==> t[k] == if k < c then cs[k] else if k == c then c else cs[k - 1]
  {
    cs[..c] + [c] + cs[c..]
  }

  function Removed(cs: seq<nat>, i: nat): (t: seq<nat>)
    requires i < |cs|
    ensures |t| == |cs| - 1
    ensures forall k :: 0 <= k < |t| ==> t[k] == if k < i then cs[k] else cs[k + 1]
  {
    cs[..i] + cs[i + 1..]
  }

  lemma GapSplits(cs: seq<nat>)
    requires Sorted(cs)
    ensures var c := Gap(cs, 0);
      && (forall k :: 0 <= k < c ==> cs[k] == k)
      && (forall k :: c <= k < |cs| ==> cs[k] > c)
  {
    var c := Gap(cs, 0);
    forall k | 0 <= k < c
      ensures cs[k] == k
    {
      SortedAbove(cs, k);
    }
    forall k | c <= k < |cs|
      ensures cs[k] > c
    {
      assert cs[c] <= cs[k];
    }
  }

  /** In a sorted array the first gap is the lowest channel nobody has, and the place to put it. */
  lemma GapIsLowestFree(cs: seq<nat>)
    requires Sorted(cs)
    ensures var c := Gap(cs, 0);
      && c !in cs && (forall d: nat :: d < c ==> d in cs)
      && Sorted(Inserted(cs, c))
  {
    hide Inserted, Sorted;
    GapSplits(cs);
    var c := Gap(cs, 0);
    forall d: nat | d < c
      ensures d in cs
    {
      assert cs[d] == d;
    }
    InsertedSorted(cs, c);
  }

  lemma InsertedSorted(cs: seq<nat>, c: nat)
    requires Sorted(cs) && c <= |cs|
    requires forall k :: 0 <= k < c ==> cs[k] == k
    requires forall k :: c <= k < |cs| ==> cs[k] > c
    ensures Sorted(Inserted(cs, c))
  {
    var t := Inserted(cs, c);
    forall i, j | 0 <= i < j < |t|
      ensures t[i] < t[j]
    {
      if c < i {
        assert cs[i - 1] < cs[j - 1];
      }
    }
  }

  /** The channels in use, in the order of the array, and the limit in force. */
  datatype Table = Table(channels: seq<nat>, channelMax: nat)

  /** `atStart`: the connection is in its START state when the call is made. */
  datatype Call = Create | Destroy(channel: nat) | SetChannelMax(limit: nat, atStart: bool)

  /** The first place of `c`, or the end. */
  function IndexOf(cs: seq<nat>, c: nat, from: nat): (i: nat)
    requires from <= |cs|
    ensures from <= i <= |cs|
    ensures i < |cs| ==> cs[i] == c
    ensures forall k :: from <= k < i ==> cs[k] != c
    decreases |cs| - from
  {
    if from == |cs| || cs[from] == c then from else IndexOf(cs, c, from + 1)
  }

  /** Creating fails when there are as many endpoints as the limit in force, which may have been lowered since. */
  function OnCall(t: Table, call: Call): Table {
    match call
    case Create => if |t.channels| >= t.channelMax then t else t.(channels := Inserted(t.channels, Gap(t.channels, 0)))
    case Destroy(c) =>
      var i := IndexOf(t.channels, c, 0);
      if i < |t.channels| then t.(channels := Removed(t.channels, i)) else t
    case SetChannelMax(limit, atStart) => if atStart then t.(channelMax := limit) else t
  }

  function AfterCalls(t: Table, calls: seq<Call>): Table
    decreases |calls|
  {
    if calls == [] then t else AfterCalls(OnCall(t, calls[0]), calls[1..])
  }

  lemma RemovedSorted(cs: seq<nat>, i: nat)
    requires Sorted(cs) && i < |cs|
    ensures Sorted(Removed(cs, i)) && cs[i] !in Removed(cs, i)
    ensures forall d :: d in Removed(cs, i) ==> d in cs
  {
    var t := Removed(cs, i);
    forall k, l | 0 <= k < l < |t|
      ensures t[k] < t[l]
    {
      assert cs[if k < i then k else k + 1] < cs[if l < i then l else l + 1];
    }
    forall k | 0 <= k < |t|
      ensures t[k] != cs[i] && t[k] in cs
    {
      if k < i {
        assert cs[k] < cs[i];
      } else {
        assert cs[i] < cs[k + 1];
      }
    }
  }

  lemma CallKeeps(t: Table, call: Call)
    requires Sorted(t.channels)
    ensures Sorted(OnCall(t, call).channels)
  {
    hide Sorted;
    if call.Destroy? {
      var i := IndexOf(t.channels, call.channel, 0);
      if i < |t.channels| {
        RemovedSorted(t.channels, i);
      }
    } else {
      GapIsLowestFree(t.channels);
    }
  }

  lemma InsertedMembers(cs: seq<nat>, c: nat)
    requires c <= |cs|
    ensures Inserted(cs, c)[c] == c
    ensures forall e :: e in Inserted(cs, c) <==> e == c || e in cs
  {
    assert cs == cs[..c] + cs[c..];
  }

  lemma {:induction false} CallsKeep(t: Table, calls: seq<Call>)
    requires Sorted(t.channels)
    ensures Sorted(AfterCalls(t, calls).channels)
    decreases |calls|
  {
    hide Sorted, OnCall;
    if calls != [] {
      CallKeeps(t, calls[0]);
      CallsKeep(OnCall(t, calls[0]), calls[1..]);
    }
  }

  /**
   Over any sequence of creates, destroys and changes of the limit, the array stays strictly sorted. A further
   create succeeds exactly when there are fewer endpoints than the limit in force; it takes the lowest channel
   nobody has, which is not above the number of endpoints and so below that limit, and changes nothing else.
   */
  lemma LowestFreeChannelAlways(t: Table, calls: seq<Call>)
    requires Sorted(t.channels)
    ensures var r := AfterCalls(t, calls); var cs := r.channels; var next := OnCall(r, Create);
      && Sorted(cs) && next.channelMax == r.channelMax
      && (next == r <==> |cs| >= r.channelMax)
      && (|cs| < r.channelMax ==>
            exists c: nat :: c <= |cs| && c !in cs && (forall d: nat :: d < c ==> d in cs)
                             && Sorted(next.channels) && forall e :: e in next.channels <==> e == c || e in cs)
  {
    CallsKeep(t, calls);
    var r := AfterCalls(t, calls);
    hide AfterCalls;
    GapIsLowestFree(r.channels);
    InsertedMembers(r.channels, Gap(r.channels, 0));
    if |r.channels| < r.channelMax {
      assert |OnCall(r, Create).channels| == |r.channels| + 1;
    }
  }

  // ---------------------------------------------------------------- the table

  class Endpoint {
    var incomingChannel: nat
    const outgoingChannel: nat

    constructor (outgoingChannel: nat)
      ensures this.outgoingChannel == outgoingChannel
    {
      this.outgoingChannel, incomingChannel := outgoingChannel, 0;
    }
  }

  predicate NoneNull(es: seq<Endpoint?>) {
    forall k :: 0 <= k < |es| ==> es[k] != null
  }

  function Channels(es: seq<Endpoint?>): (cs: seq<nat>)
    requires NoneNull(es)
    ensures |cs| == |es|
    ensures forall k :: 0 <= k < |es| ==> cs[k] == es[k].outgoingChannel
  {
    seq(|es|, k requires 0 <= k < |es| && es[k] != null => es[k].outgoingChannel)
  }

  lemma ChannelsInserted(es: seq<Endpoint?>, e: Endpoint)
    requires NoneNull(es) && e.outgoingChannel <= |es|
    ensures var i := e.outgoingChannel; var t := es[..i] + [e] + es[i..];
      NoneNull(t) && Channels(t) == Inserted(Channels(es), i)
  {
  }

  lemma ChannelsRemoved(es: seq<Endpoint?>, i: nat)
    requires NoneNull(es) && i < |es|
    ensures var t := es[..i] + es[i + 1..];
      NoneNull(t) && Channels(t) == Removed(Channels(es), i)
  {
  }

  /** In a table sorted by channel no endpoint appears twice and no channel has two owners. */
  lemma OneOwner(es: seq<Endpoint?>, i: nat)
    requires NoneNull(es) && i < |es| && Sorted(Channels(es))
    ensures forall k :: 0 <= k < |es| && k != i ==> es[k].outgoingChannel != es[i].outgoingChannel
    ensures IndexOf(Channels(es), es[i].outgoingChannel, 0) == i
  {
    var cs := Channels(es);
    forall k | 0 <= k < |es| && k != i
      ensures cs[k] != cs[i]
    {
      if k < i {
        assert cs[k] < cs[i];
      } else {
        assert cs[i] < cs[k];
      }
    }
  }

  class EndpointTable {
    var endpoints: array<Endpoint?>
    var endpointCount: nat
    var channelMax: nat

    ghost function Contents(): (es: seq<Endpoint?>)
      reads this, endpoints
      requires endpointCount <= endpoints.Length
    {
      endpoints[..endpointCount]
    }

    ghost predicate Valid()
      reads this, endpoints
    {
      endpointCount <= endpoints.Length && NoneNull(Contents()) && Sorted(Channels(Contents()))
    }

    ghost function State(): (t: Table)
      reads this, endpoints
      requires Valid()
    {
      Table(Channels(Contents()), channelMax)
    }

    constructor (channelMax: nat)
      ensures Valid() && Contents() == [] && this.channelMax == channelMax && fresh(endpoints)
    {
      endpoints := new Endpoint?[0];
      endpointCount, this.channelMax := 0, channelMax;
    }

    method FindByOutgoingChannel(channel: nat) returns (e: Endpoint?)
      requires Valid()
      ensures e != null ==> e in Contents() && e.outgoingChannel == channel && forall x :: x in Contents() && x.outgoingChannel == channel ==> x == e
      ensures e == null <==> forall x :: x in Contents() ==> x.outgoingChannel != channel
    {
      var i := 0;
      while i < endpointCount && endpoints[i].outgoingChannel != channel
        invariant i <= endpointCount
        invariant forall k :: 0 <= k < i ==> Contents()[k].outgoingChannel != channel
      {
        i := i + 1;
      }
      e := if i == endpointCount then null else endpoints[i];
      if e != null {
        assert e == Contents()[i];
        OneOwner(Contents(), i);
      }
    }

    /** `connection_set_channel_max`: the limit may change at START, also to fewer than there are endpoints. */
    method ChangeChannelMax(limit: nat, atStart: bool) returns (ok: bool)
      requires Valid()
      modifies this`channelMax
      ensures Valid() && Contents() == old(Contents()) && ok == atStart
      ensures State() == OnCall(old(State()), SetChannelMax(limit, atStart))
    {
      if atStart {
        channelMax := limit;
      }
      ok := atStart;
    }

    /** Where the search of the source for a gap in the array stops. */
    method FindGap() returns (i: nat)
      requires Valid()
      ensures i == Gap(Channels(Contents()), 0)
    {
      ghost var cs := Channels(Contents());
      i := 0;
      while i < endpointCount && endpoints[i].outgoingChannel <= i
        invariant i <= endpointCount && Gap(cs, 0) == Gap(cs, i)
      {
        assert cs[i] == Contents()[i].outgoingChannel;
        i := i + 1;
      }
      assert i < endpointCount ==> cs[i] == Contents()[i].outgoingChannel;
    }

    /** The lowest free channel is found, the array grows by one and the endpoints behind the gap move up. */
    method CreateEndpoint() returns (e: Endpoint?)
      requires Valid()
      modifies this`endpoints, this`endpointCount
      ensures Valid() && channelMax == old(channelMax) && (fresh(endpoints) || endpoints == old(endpoints))
      ensures e == null <==> old(endpointCount) >= channelMax
      ensures e == null ==> Contents() == old(Contents())
      ensures e != null ==>
        && fresh(e) && e.outgoingChannel == Gap(Channels(old(Contents())), 0)
        && Contents() == old(Contents())[..e.outgoingChannel] + [e] + old(Contents())[e.outgoingChannel..]
      ensures State() == OnCall(old(State()), Create)
    {
      hide Sorted, Inserted, NoneNull;
      if endpointCount >= channelMax {
        return null;
      }
      ghost var was := Contents();
      var i := FindGap();
      GapIsLowestFree(Channels(was));
      e := new Endpoint(i);
      Grow(i, e);
      ChannelsInserted(was, e);
    }

    method Grow(i: nat, e: Endpoint)
      requires i <= endpointCount <= endpoints.Length
      modifies this`endpoints, this`endpointCount
      ensures fresh(endpoints) && endpointCount == old(endpointCount) + 1 <= endpoints.Length
      ensures Contents() == old(Contents())[..i] + [e] + old(Contents())[i..]
    {
      hide Sorted, Inserted, NoneNull;
      var grown := new Endpoint?[endpointCount + 1];
      MoveInto(grown, 0, endpoints, 0, i);
      assert grown[..i] == endpoints[..endpointCount][..i];
      ghost var front := grown[..i + 1];
      var n := endpointCount - i;
      MoveInto(grown, i + 1, endpoints, i, n);
      assert grown[..i] == front[..i];
      assert i + 1 + n == grown.Length && i + n == endpointCount;
      assert grown[i + 1..] == grown[i + 1..i + 1 + n] == endpoints[i..i + n] == endpoints[..endpointCount][i..];
      grown[i] := e;
      assert grown[..] == grown[..i] + [e] + grown[i + 1..];
      endpoints := grown;
      endpointCount := endpointCount + 1;
      assert Contents() == grown[..];
    }

    /** `memmove` between two arrays. */
    static method MoveInto(to: array<Endpoint?>, toStart: nat, from: array<Endpoint?>, fromStart: nat, n: nat)
      requires to != from && toStart + n <= to.Length && fromStart + n <= from.Length
      modifies to
      ensures to[..toStart] == old(to[..toStart]) && to[toStart + n..] == old(to[toStart + n..])
      ensures to[toStart..toStart + n] == from[fromStart..fromStart + n]
    {
      for k := 0 to n
        invariant to[..toStart] == old(to[..toStart]) && to[toStart + n..] == old(to[toStart + n..])
        invariant to[toStart..toStart + k] == from[fromStart..fromStart + k]
      {
        to[toStart + k] := from[fromStart + k];
        assert to[toStart..toStart + k + 1] == to[toStart..toStart + k] + [from[fromStart + k]];
        assert from[fromStart..fromStart + k + 1] == from[fromStart..fromStart + k] + [from[fromStart + k]];
      }
    }

    /** `memmove` of all that is behind place `i` down by one place. */
    method MoveDown(i: nat)
      requires i < endpointCount <= endpoints.Length
      modifies endpoints
      ensures endpoints[..endpointCount - 1] == old(endpoints[..i] + endpoints[i + 1..endpointCount])
    {
      for k := i to endpointCount - 1
        invariant endpoints[..k] == old(endpoints[..i] + endpoints[i + 1..k + 1])
        invariant endpoints[k..endpointCount] == old(endpoints[k..endpointCount])
      {
        assert endpoints[k + 1] == endpoints[k..endpointCount][1];
        endpoints[k] := endpoints[k + 1];
        assert old(endpoints[i + 1..k + 2]) == old(endpoints[i + 1..k + 1]) + [old(endpoints[k + 1])];
        assert endpoints[..k + 1] == endpoints[..k] + [endpoints[k]];
        assert endpoints[k + 1..endpointCount] == old(endpoints[k..endpointCount])[1..];
      }
    }

    /** The endpoints behind the one that goes move down by one place. */
    method DestroyEndpoint(e: Endpoint)
      requires Valid()
      modifies this`endpointCount, endpoints
      ensures Valid() && channelMax == old(channelMax) && endpoints == old(endpoints)
      ensures e in old(Contents()) ==> State() == OnCall(old(State()), Destroy(e.outgoingChannel))
      ensures e !in old(Contents()) ==> Contents() == old(Contents())
      ensures forall x :: x in Contents() <==> x in old(Contents()) && x != e
    {
      hide Sorted, Removed;
      ghost var was := Contents();
      var i := 0;
      while i < endpointCount && endpoints[i] != e
        invariant i <= endpointCount
        invariant forall k :: 0 <= k < i ==> was[k] != e
      {
        i := i + 1;
      }
      if i < endpointCount {
        assert was[i] == e;
        MoveDown(i);
        endpointCount := endpointCount - 1;
        assert Contents() == was[..i] + was[i + 1..];
        ChannelsRemoved(was, i);
        RemovedSorted(Channels(was), i);
        OneOwner(was, i);
        assert was == was[..i] + [e] + was[i + 1..];
      }
    }
  }
}
