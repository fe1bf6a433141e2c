/**
 * `get_google_suggestions`: send every expanded query, strip the envelope off
 * each reply, decode it, and collect `entry[0]` of every entry in element 1
 * of the decoded array into a set seeded with the base keyword. A failed
 * request ends the loop, an undecodable reply is skipped, and the set is
 * returned sorted.
 *
 * The network is an oracle `respond` from query string to outcome (each query
 * string is sent at most once, see Expansion.QueriesDistinct) and the JSON
 * parser is an oracle `decode` from text to a decoded reply or a decode error.
 * `Classify` is the body of the loop for one query; `Gather` is the loop.
 */
module Suggestions {
  import opened StringOrder
  import Expansion
  import Envelope

  /** The part of a decoded JSON value the harvester looks at. */
  datatype Json = JStr(str: string) | JArr(items: seq<Json>) | JOther

  /** One suggestion entry: an array whose element 0 is the keyword string. */
  predicate IsEntry(e: Json) {
    e.JArr? && |e.items| >= 1 && e.items[0].JStr?
  }

  /** `suggestion[0]`: the keyword of an entry. */
  function KeywordOf(e: Json): string
    requires IsEntry(e)
  {
    e.items[0].str
  }

  /**
   * The reply shape the loop is written for: an array whose element 1 is an
   * array of entries, each an array with a string at index 0. Other decoded
   * values are not modelled; some of them raise in the loop and some are
   * walked in other ways.
   */
  predicate Shaped(v: Json) {
    && v.JArr?
    && |v.items| >= 2
    && v.items[1].JArr?
    && forall i :: 0 <= i < |v.items[1].items| ==> IsEntry(v.items[1].items[i])
  }

  type Reply = v: Json | Shaped(v) witness JArr([JOther, JArr([])])

  /** What the JSON parser makes of a text. */
  datatype Decoded = DecodeErr | Parsed(reply: Reply)

  /** What one request produced: a request failure, or a response body. */
  datatype Fetch = RequestErr | Fetched(text: string)

  /** The keywords of a run of entries: `suggestion[0]` for each `suggestion`. */
  function EntryKeywords(entries: seq<Json>): (ks: set<string>)
    requires forall i :: 0 <= i < |entries| ==> IsEntry(entries[i])
    ensures forall k :: k in ks <==> exists i :: 0 <= i < |entries| && KeywordOf(entries[i]) == k
    decreases |entries|
  {
    if |entries| == 0 then {}
    else
      assert forall i :: 1 <= i < |entries| ==> entries[1..][i - 1] == entries[i];
      assert IsEntry(entries[0]);
      var rest := EntryKeywords(entries[1..]);
      {KeywordOf(entries[0])} + rest
  }

  /** The keywords one decoded reply offers: element 0 of each entry of element 1. */
  function Keywords(v: Reply): set<string> {
    EntryKeywords(v.items[1].items)
  }

  /** What the body of the loop does with one query's outcome. */
  datatype Step =
    | Stop                          // a request error: `break`
    | Skip                          // a JSON decode error: `continue`
    | Add(keywords: set<string>)    // a decoded reply: add its keywords

  /** The keywords a step adds to the set. */
  function Added(s: Step): set<string> {
    if s.Add? then s.keywords else {}
  }

  /**
   * The body of the loop for one outcome: strip the envelope, decode, and
   * take the keywords of the entries. It stops exactly on a request error,
   * skips exactly on a decode error, and otherwise adds exactly the
   * keywords of the entries of the decoded reply.
   */
  function Classify(o: Fetch, decode: string -> Decoded): (s: Step)
    ensures s.Stop? <==> o.RequestErr?
    ensures s.Skip? <==> o.Fetched? && decode(Envelope.Strip(o.text)).DecodeErr?
    ensures forall x :: x in Added(s) <==>
      && o.Fetched?
      && decode(Envelope.Strip(o.text)).Parsed?
      && exists i :: 0 <= i < |decode(Envelope.Strip(o.text)).reply.items[1].items|
           && KeywordOf(decode(Envelope.Strip(o.text)).reply.items[1].items[i]) == x
  {
    match o
    case RequestErr => Stop
    case Fetched(text) =>
      match decode(Envelope.Strip(text))
      case DecodeErr => Skip
      case Parsed(v) => Add(Keywords(v))
  }

  /** How many steps the loop takes: all of them up to the first stop. */
  function Cutoff(outs: seq<Step>): (n: nat)
    ensures n <= |outs|
    ensures forall k :: 0 <= k < n ==> !outs[k].Stop?
    ensures n < |outs| ==> outs[n].Stop?
    decreases |outs|
  {
    if |outs| == 0 || outs[0].Stop? then 0
    else
      var n := Cutoff(outs[1..]);
      assert forall k :: 1 <= k < n + 1 ==> outs[k] == outs[1..][k - 1];
      1 + n
  }

  /**
   * The loop over the steps, in query order: the keywords it adds to the
   * set. A keyword is gathered exactly when some step before the first stop
   * adds it.
   */
  function Gather(steps: seq<Step>): (ks: set<string>)
    ensures forall x :: x in ks <==> exists k :: 0 <= k < Cutoff(steps) && x in Added(steps[k])
    decreases |steps|
  {
    if |steps| == 0 || steps[0].Stop? then {}
    else
      var tail := steps[1..];
      var rest := Gather(tail);
      assert Cutoff(steps) == 1 + Cutoff(tail);
      assert forall k :: 0 <= k < Cutoff(tail) ==> tail[k] == steps[k + 1];
      assert forall x :: x in rest ==> exists k :: 0 <= k < Cutoff(steps) && x in Added(steps[k]) by {
        forall x | x in rest
          ensures exists k :: 0 <= k < Cutoff(steps) && x in Added(steps[k])
        {
          var k :| 0 <= k < Cutoff(tail) && x in Added(tail[k]);
          assert x in Added(steps[k + 1]);
        }
      }
      assert forall x, k :: 0 < k < Cutoff(steps) && x in Added(steps[k]) ==> x in rest by {
        forall x, k | 0 < k < Cutoff(steps) && x in Added(steps[k])
          ensures x in rest
        {
          assert x in Added(tail[k - 1]);
        }
      }
      Added(steps[0]) + rest
  }

  /**
   * A request error ends the loop: whatever follows it adds nothing, and
   * what was gathered before it is kept.
   */
  lemma {:induction false} StopEndsLoop(pre: seq<Step>, tail: seq<Step>)
    ensures Gather(pre + [Stop] + tail) == Gather(pre)
    decreases |pre|
  {
    var whole := pre + [Stop] + tail;
    if |pre| == 0 || pre[0].Stop? {
      assert whole[0] == Stop;
    } else {
      ConsAppend(pre, [Stop] + tail);
      assert whole[0] == pre[0] && whole[1..] == pre[1..] + [Stop] + tail;
      StopEndsLoop(pre[1..], tail);
    }
  }

  /** A decode error is skipped: the loop gathers what it would without that step. */
  lemma {:induction false} SkipIsDropped(pre: seq<Step>, tail: seq<Step>)
    ensures Gather(pre + [Skip] + tail) == Gather(pre + tail)
    decreases |pre|
  {
    var whole := pre + [Skip] + tail;
    if |pre| == 0 {
      assert whole == [Skip] + tail && pre + tail == tail;
      assert whole[1..] == tail;
    } else if pre[0].Stop? {
      assert whole[0] == Stop && (pre + tail)[0] == Stop;
    } else {
      ConsAppend(pre, [Skip] + tail);
      ConsAppend(pre, tail);
      assert whole[0] == pre[0] && whole[1..] == pre[1..] + [Skip] + tail;
      assert (pre + tail)[0] == pre[0] && (pre + tail)[1..] == pre[1..] + tail;
      SkipIsDropped(pre[1..], tail);
    }
  }

  /**
   * Without request errors the set gathered does not depend on the order in
   * which the replies arrive: any rearrangement gathers the same keywords.
   */
  lemma GatherOrderIndependent(steps: seq<Step>, steps': seq<Step>)
    requires multiset(steps) == multiset(steps')
    requires forall k :: 0 <= k < |steps| ==> !steps[k].Stop?
    ensures Gather(steps) == Gather(steps')
  {
    forall o
      ensures o in steps <==> o in steps'
    {
      assert o in steps <==> o in multiset(steps);
      assert o in steps' <==> o in multiset(steps');
    }
    forall k | 0 <= k < |steps'|
      ensures !steps'[k].Stop?
    {
      assert steps'[k] in steps;
    }
    assert Cutoff(steps) == |steps| && Cutoff(steps') == |steps'|;
    forall x | x in Gather(steps)
      ensures x in Gather(steps')
    {
      var k :| 0 <= k < |steps| && x in Added(steps[k]);
      assert steps[k] in steps';
      var k' :| 0 <= k' < |steps'| && steps'[k'] == steps[k];
      assert x in Added(steps'[k']);
    }
    forall x | x in Gather(steps')
      ensures x in Gather(steps)
    {
      var k' :| 0 <= k' < |steps'| && x in Added(steps'[k']);
      assert steps'[k'] in steps;
      var k :| 0 <= k < |steps| && steps[k] == steps'[k'];
      assert x in Added(steps[k]);
    }
  }

  /**
   * `for query in search_queries`: the step the loop body takes for each
   * query, walking the list from the front. Step `k` belongs to query `k`.
   */
  function StepsOf(qs: seq<string>, respond: string -> Fetch, decode: string -> Decoded): (steps: seq<Step>)
    ensures |steps| == |qs|
    ensures forall k :: 0 <= k < |qs| ==> steps[k] == Classify(respond(qs[k]), decode)
    decreases |qs|
  {
    if |qs| == 0 then []
    else
      var rest := StepsOf(qs[1..], respond, decode);
      assert forall k :: 1 <= k < |qs| ==> qs[k] == qs[1..][k - 1];
      [Classify(respond(qs[0]), decode)] + rest
  }

  /** The steps over the expanded queries of `seed`. */
  function Steps(seed: string, respond: string -> Fetch, decode: string -> Decoded): seq<Step> {
    StepsOf(Expansion.Queries(seed), respond, decode)
  }

  /**
   * The returned list: strictly ascending (so free of duplicates), always
   * holding the base keyword, and otherwise holding exactly the keywords of
   * the replies decoded before the first request error.
   */
  ghost function GetGoogleSuggestions(seed: string, respond: string -> Fetch, decode: string -> Decoded): (r: seq<string>)
    ensures seed in r
    ensures StrictlyAscending(r)
    ensures forall i, j :: 0 <= i < j < |r| ==> r[i] != r[j]
    ensures forall x :: x in r <==>
      || x == seed
      || exists k :: 0 <= k < Cutoff(Steps(seed, respond, decode)) && x in Added(Steps(seed, respond, decode)[k])
  {
    var r := SortedList({seed} + Gather(Steps(seed, respond, decode)));
    AscendingDistinct(r);
    r
  }

  /** Even when the very first request fails, the base keyword alone is returned. */
  lemma FirstRequestErrorKeepsSeed(seed: string, respond: string -> Fetch, decode: string -> Decoded)
    requires respond(seed).RequestErr?
    ensures GetGoogleSuggestions(seed, respond, decode) == [seed]
  {
    var steps := Steps(seed, respond, decode);
    assert steps[0] == Stop;
    SortedListUnique({seed}, [seed]);
  }

  /**
   * A request error on query `k` decides the result: it is the sorted set of
   * the base keyword and what queries before `k` gathered, and is the same
   * for every oracle that agrees on queries `0..k`.
   */
  lemma RequestErrorOnQuery(seed: string, respond: string -> Fetch, respond': string -> Fetch, decode: string -> Decoded, k: nat)
    requires k < |Expansion.Queries(seed)|
    requires respond(Expansion.Queries(seed)[k]).RequestErr?
    requires respond'(Expansion.Queries(seed)[k]).RequestErr?
    requires forall i :: 0 <= i < k ==> respond(Expansion.Queries(seed)[i]) == respond'(Expansion.Queries(seed)[i])
    ensures GetGoogleSuggestions(seed, respond, decode)
         == SortedList({seed} + Gather(Steps(seed, respond, decode)[..k]))
         == GetGoogleSuggestions(seed, respond', decode)
  {
    var steps, steps' := Steps(seed, respond, decode), Steps(seed, respond', decode);
    assert steps[k] == Stop && steps'[k] == Stop;
    assert steps'[..k] == steps[..k] by {
      assert forall i :: 0 <= i < k ==> steps'[i] == steps[i];
    }
    StopAt(steps, k);
    StopAt(steps', k);
    assert GetGoogleSuggestions(seed, respond, decode) == SortedList({seed} + Gather(steps));
    assert GetGoogleSuggestions(seed, respond', decode) == SortedList({seed} + Gather(steps'));
  }

  /** The loop gathers nothing from a stop on: only the steps before it count. */
  lemma StopAt(steps: seq<Step>, k: nat)
    requires k < |steps| && steps[k] == Stop
    ensures Gather(steps) == Gather(steps[..k])
  {
    SplitAt(steps, k);
    StopEndsLoop(steps[..k], steps[k + 1..]);
  }

  /** An undecodable reply to query `k` gives the result obtained by dropping that query. */
  lemma DecodeErrorOnQuery(seed: string, respond: string -> Fetch, decode: string -> Decoded, k: nat, text: string)
    requires k < |Expansion.Queries(seed)|
    requires respond(Expansion.Queries(seed)[k]) == Fetched(text)
    requires decode(Envelope.Strip(text)) == DecodeErr
    ensures GetGoogleSuggestions(seed, respond, decode)
         == SortedList({seed} + Gather(Steps(seed, respond, decode)[..k] + Steps(seed, respond, decode)[k + 1..]))
  {
    var steps := Steps(seed, respond, decode);
    SplitAt(steps, k);
    SkipIsDropped(steps[..k], steps[k + 1..]);
  }

  lemma ConsAppend<T>(a: seq<T>, b: seq<T>)
    requires |a| > 0
    ensures a + b == [a[0]] + (a[1..] + b)
  {
  }

  lemma SplitAt<T>(s: seq<T>, k: nat)
    requires k < |s|
    ensures s == s[..k] + [s[k]] + s[k + 1..]
  {
  }
}
