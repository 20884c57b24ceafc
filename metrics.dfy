/**
 * The metric table of metrics.rs: a map from entity type name to the number
 * of distinct stored ids, refreshed by a collection pass over the catalog
 * once per collection period, and rendered as one exposition line per entry.
 *
 * The count query of an entity type is an input function: `Some(n)` when
 * the query succeeds, `None` when it fails. Durations are nanoseconds.
 */
module Metrics {
  import opened Wrappers
  import opened Text

  /** METRIC_COLLECTION_FREQUENCY, 60 seconds, in nanoseconds. */
  const CollectionPeriod: nat := 60 * 1_000_000_000

  type Counts = map<string, nat>

  // ---------------------------------------------------------------------
  // One collection pass

  /** `entry(name).and_modify(|f| *f = c).or_insert(c)`, skipped when the query failed. */
  function Upsert(counts: Counts, name: string, count: Option<nat>): Counts {
    if count.Some? then counts[name := count.value] else counts
  }

  /** The table after visiting `names` in order, starting from `counts`. */
  function AfterPass(counts: Counts, names: seq<string>, countOf: string -> Option<nat>): Counts
    decreases |names|
  {
    if names == [] then counts
    else
      var last := names[|names| - 1];
      Upsert(AfterPass(counts, names[..|names| - 1], countOf), last, countOf(last))
  }

  /**
   * After a pass every visited name whose query succeeded maps to its count,
   * new key or not; every other key keeps its value, and no other key
   * appears.
   */
  lemma {:induction false} AfterPassMeaning(counts: Counts, names: seq<string>, countOf: string -> Option<nat>)
    ensures var after := AfterPass(counts, names, countOf);
            && (forall n :: n in after <==> n in counts || (n in names && countOf(n).Some?))
            && (forall n :: n in names && countOf(n).Some? ==> after[n] == countOf(n).value)
            && (forall n :: n in counts && !(n in names && countOf(n).Some?) ==> after[n] == counts[n])
    decreases |names|
  {
    if names != [] {
      var init := names[..|names| - 1];
      AfterPassMeaning(counts, init, countOf);
      assert names == init + [names[|names| - 1]];
    }
  }

  /** A pass over names keeps every key a name. */
  lemma {:induction false} AfterPassNames(counts: Counts, names: seq<string>, countOf: string -> Option<nat>)
    requires forall n :: n in counts ==> IsName(n)
    requires forall i :: 0 <= i < |names| ==> IsName(names[i])
    ensures forall n :: n in AfterPass(counts, names, countOf) ==> IsName(n)
  {
    AfterPassMeaning(counts, names, countOf);
    forall n | n in AfterPass(counts, names, countOf) && n !in counts
      ensures IsName(n)
    {
      var i :| 0 <= i < |names| && names[i] == n;
    }
  }

  /** A second pass with the same answers changes nothing. */
  lemma AfterPassIdempotent(counts: Counts, names: seq<string>, countOf: string -> Option<nat>)
    ensures AfterPass(AfterPass(counts, names, countOf), names, countOf) == AfterPass(counts, names, countOf)
  {
    var once := AfterPass(counts, names, countOf);
    var twice := AfterPass(once, names, countOf);
    AfterPassMeaning(counts, names, countOf);
    AfterPassMeaning(once, names, countOf);
    assert twice.Keys == once.Keys;
  }

  // ---------------------------------------------------------------------
  // The pause between passes

  /** `to_std()` of a negative duration fails and its `unwrap` panics. */
  datatype ClockError = NegativeElapsed

  /** What `update_metrics` does once a pass has taken its time. */
  datatype Pause = Sleep(duration: nat) | Restart

  /** The rule of metrics.rs:44-53, on the nanoseconds the pass took. */
  function NextPause(elapsed: int): Result<Pause, ClockError> {
    if elapsed < 0 then Err(NegativeElapsed)
    else if elapsed < CollectionPeriod then Ok(Sleep(CollectionPeriod - elapsed))
    else Ok(Restart)
  }

  function PauseLength(p: Pause): nat {
    if p.Sleep? then p.duration else 0
  }

  /**
   * The pass sleeps exactly when it ended within the period, and then for a
   * positive time; the next pass starts one period after this one started,
   * or immediately when this one overran. A clock that went backwards is an
   * error.
   */
  lemma NextPauseMeaning(elapsed: int)
    ensures NextPause(elapsed).Err? <==> elapsed < 0
    ensures NextPause(elapsed).Ok? ==> (NextPause(elapsed).value.Sleep? <==> elapsed < CollectionPeriod)
    ensures NextPause(elapsed).Ok? && NextPause(elapsed).value.Sleep? ==> NextPause(elapsed).value.duration > 0
    ensures NextPause(elapsed).Ok? ==>
              elapsed + PauseLength(NextPause(elapsed).value) == if elapsed < CollectionPeriod then CollectionPeriod else elapsed
  {
  }

  // ---------------------------------------------------------------------
  // The exposition text

  const LinePrefix := "items_cached_total{resource_type=\""
  const LineMiddle := "\"} "

  /** One `writeln!` of metrics.rs:71-75. */
  function Line(name: string, count: nat): string {
    LinePrefix + name + LineMiddle + NatToDecimal(count) + "\n"
  }

  /** The lines of the entries in `order`, one after the other. */
  function Exposition(counts: Counts, order: seq<string>): string
    requires forall i :: 0 <= i < |order| ==> order[i] in counts
  {
    if order == [] then "" else Line(order[0], counts[order[0]]) + Exposition(counts, order[1..])
  }

  lemma {:induction false} ExpositionSnoc(counts: Counts, order: seq<string>, name: string)
    requires forall i :: 0 <= i < |order| ==> order[i] in counts
    requires name in counts
    ensures Exposition(counts, order + [name]) == Exposition(counts, order) + Line(name, counts[name])
  {
    if order != [] {
      assert (order + [name])[1..] == order[1..] + [name];
      ExpositionSnoc(counts, order[1..], name);
    } else {
      assert order + [name] == [name];
    }
  }

  /** `order` lists every key of `counts` once: the iteration of the map. */
  predicate Enumerates(counts: Counts, order: seq<string>) {
    && (forall i :: 0 <= i < |order| ==> order[i] in counts)
    && (forall n :: n in counts ==> n in order)
    && (forall i, j :: 0 <= i < j < |order| ==> order[i] != order[j])
  }

  /** Reads one line without its newline: the name and the count. */
  function ParseLine(line: string): Option<(string, nat)> {
    if |line| < |LinePrefix| || line[..|LinePrefix|] != LinePrefix then None
    else
      var body := line[|LinePrefix|..];
      var q := IndexOf(body, '"');
      if q + |LineMiddle| > |body| || body[q..q + |LineMiddle|] != LineMiddle then None
      else
        match ParseNat(body[q + |LineMiddle|..])
        case Some(n) => Some((body[..q], n))
        case None => None
  }

  /** Reads newline-terminated lines; any malformed line makes the text malformed. */
  function ParseExposition(text: string): Option<seq<(string, nat)>>
    decreases |text|
  {
    if text == [] then Some([])
    else
      var k := IndexOf(text, '\n');
      if k == |text| then None
      else
        match ParseLine(text[..k])
        case None => None
        case Some(entry) =>
          match ParseExposition(text[k + 1..])
          case None => None
          case Some(rest) => Some([entry] + rest)
  }

  lemma ParseLineOfLine(name: string, count: nat)
    requires IsName(name)
    ensures ParseLine(LinePrefix + name + LineMiddle + NatToDecimal(count)) == Some((name, count))
  {
    var digits := NatToDecimal(count);
    var line := LinePrefix + name + LineMiddle + digits;
    assert line[..|LinePrefix|] == LinePrefix;
    var body := line[|LinePrefix|..];
    assert body == name + ['"'] + ("} " + digits);
    assert '"' !in name;
    IndexOfFirst(name, '"', "} " + digits);
    assert body[|name|..|name| + |LineMiddle|] == LineMiddle;
    assert body[|name| + |LineMiddle|..] == digits;
    assert body[..|name|] == name;
    ParseNatDecimal(count);
  }

  lemma LineSplits(name: string, count: nat, rest: string)
    requires IsName(name)
    ensures var text := Line(name, count) + rest;
            var k := IndexOf(text, '\n');
            && k < |text|
            && text[..k] == LinePrefix + name + LineMiddle + NatToDecimal(count)
            && text[k + 1..] == rest
  {
    var body := LinePrefix + name + LineMiddle + NatToDecimal(count);
    assert '\n' !in LinePrefix && '\n' !in LineMiddle && '\n' !in name;
    assert '\n' !in NatToDecimal(count) by {
      assert AllDigits(NatToDecimal(count));
    }
    assert '\n' !in body;
    assert Line(name, count) + rest == body + ['\n'] + rest;
    IndexOfFirst(body, '\n', rest);
    assert (body + ['\n'] + rest)[..|body|] == body;
    assert (body + ['\n'] + rest)[|body| + 1..] == rest;
  }

  /** The entries of `order` as name and count pairs. */
  function Entries(counts: Counts, order: seq<string>): (r: seq<(string, nat)>)
    requires forall i :: 0 <= i < |order| ==> order[i] in counts
    ensures |r| == |order|
  {
    if order == [] then [] else [(order[0], counts[order[0]])] + Entries(counts, order[1..])
  }

  /** The exposition reads back as one entry per listed name, in order. */
  lemma {:induction false} ExpositionRoundTrip(counts: Counts, order: seq<string>)
    requires forall i :: 0 <= i < |order| ==> order[i] in counts && IsName(order[i])
    ensures ParseExposition(Exposition(counts, order)) == Some(Entries(counts, order))
  {
    if order != [] {
      var name := order[0];
      var rest := Exposition(counts, order[1..]);
      LineSplits(name, counts[name], rest);
      ParseLineOfLine(name, counts[name]);
      ExpositionRoundTrip(counts, order[1..]);
    }
  }

  lemma {:induction false} EntriesAt(counts: Counts, order: seq<string>, i: nat)
    requires forall j :: 0 <= j < |order| ==> order[j] in counts
    requires i < |order|
    ensures Entries(counts, order)[i] == (order[i], counts[order[i]])
  {
    if i > 0 {
      EntriesAt(counts, order[1..], i - 1);
    }
  }

  /** The entries of an iteration of the table: each entry once, with its count. */
  lemma EntriesMeaning(counts: Counts, order: seq<string>)
    requires Enumerates(counts, order)
    ensures var lines := Entries(counts, order);
            && |lines| == |counts|
            && (forall i :: 0 <= i < |lines| ==> lines[i].0 in counts && lines[i].1 == counts[lines[i].0])
            && (forall n :: n in counts ==> exists i :: 0 <= i < |lines| && lines[i].0 == n)
            && (forall i, j :: 0 <= i < j < |lines| ==> lines[i].0 != lines[j].0)
  {
    var lines := Entries(counts, order);
    assert forall i :: 0 <= i < |lines| ==> lines[i] == (order[i], counts[order[i]]) by {
      forall i | 0 <= i < |lines|
        ensures lines[i] == (order[i], counts[order[i]])
      {
        EntriesAt(counts, order, i);
      }
    }
    assert |order| == |counts| by {
      assert counts.Keys == set i | 0 <= i < |order| :: order[i];
      DistinctCard(order);
    }
    forall n | n in counts
      ensures exists i :: 0 <= i < |lines| && lines[i].0 == n
    {
      var i :| 0 <= i < |order| && order[i] == n;
      assert lines[i].0 == n;
    }
  }

  /**
   * When `order` is an iteration of the table, the exposition holds exactly
   * one line per entry, with the entry's count, and nothing else.
   */
  lemma ExpositionMeaning(counts: Counts, order: seq<string>)
    requires Enumerates(counts, order)
    requires forall n :: n in counts ==> IsName(n)
    ensures ParseExposition(Exposition(counts, order)).Some?
    ensures var lines := ParseExposition(Exposition(counts, order)).value;
            && |lines| == |counts|
            && (forall i :: 0 <= i < |lines| ==> lines[i].0 in counts && lines[i].1 == counts[lines[i].0])
            && (forall n :: n in counts ==> exists i :: 0 <= i < |lines| && lines[i].0 == n)
            && (forall i, j :: 0 <= i < j < |lines| ==> lines[i].0 != lines[j].0)
  {
    ExpositionRoundTrip(counts, order);
    EntriesMeaning(counts, order);
  }

  lemma {:induction false} DistinctCard(order: seq<string>)
    requires forall i, j :: 0 <= i < j < |order| ==> order[i] != order[j]
    ensures |set i | 0 <= i < |order| :: order[i]| == |order|
  {
    if order != [] {
      var init := order[..|order| - 1];
      DistinctCard(init);
      var last := order[|order| - 1];
      assert (set i | 0 <= i < |order| :: order[i]) == (set i | 0 <= i < |init| :: init[i]) + {last};
      assert last !in (set i | 0 <= i < |init| :: init[i]);
    }
  }

  // ---------------------------------------------------------------------
  // The shared table

  /** The `HashMap` behind the `RwLock` that the collection loop and the route share. */
  class MetricsTable {
    var counts: Counts

    constructor ()
      ensures counts == map[]
    {
      counts := map[];
    }

    /** One pass of `update_metrics` over the catalog names, in catalog order. */
    method CollectionPass(names: seq<string>, countOf: string -> Option<nat>)
      modifies this
      ensures counts == AfterPass(old(counts), names, countOf)
    {
      for i := 0 to |names|
        invariant counts == AfterPass(old(counts), names[..i], countOf)
      {
        assert names[..i + 1][..i] == names[..i];
        counts := Upsert(counts, names[i], countOf(names[i]));
      }
      assert names[..|names|] == names;
    }

    /** The body of the `/metrics` response, writing the entries in `order`. */
    method Render(order: seq<string>) returns (output: string)
      requires Enumerates(counts, order)
      ensures output == Exposition(counts, order)
    {
      output := "";
      for i := 0 to |order|
        invariant output == Exposition(counts, order[..i])
      {
        assert order[..i + 1] == order[..i] + [order[i]];
        ExpositionSnoc(counts, order[..i], order[i]);
        output := output + Line(order[i], counts[order[i]]);
      }
      assert order[..|order|] == order;
    }
  }
}
