/**
 Choosing what to post and recording it. `Unposted` is the list
 comprehension of `get_random_content` that keeps the listed Markdown paths
 missing from `posted_history['posted_files']`; `Record` is the one change
 `post_tweet` makes to that history. `Replay` follows the history across
 any number of runs, which is where "no content is posted twice" lives.
 */
module Selection {

  /** No path occurs twice. */
  predicate NoDuplicates(h: seq<string>)
  {
    forall i, j :: 0 <= i < j < |h| ==> h[i] != h[j]
  }

  /** `[f for f in md_files if str(f) not in posted_files]`. */
  function Unposted(listing: seq<string>, posted: seq<string>): (r: seq<string>)
    ensures forall p :: p in r <==> p in listing && p !in posted
    ensures |r| <= |listing|
  {
    if listing == [] then []
    else (if listing[0] in posted then [] else [listing[0]]) + Unposted(listing[1..], posted)
  }

  /** `a` is `b` with some elements left out, in the same order. */
  predicate IsSubsequence(a: seq<string>, b: seq<string>)
    decreases |b|
  {
    if a == [] then true
    else if b == [] then false
    else (a[0] == b[0] && IsSubsequence(a[1..], b[1..])) || IsSubsequence(a, b[1..])
  }

  /** The candidates keep the listing's relative order. */
  lemma {:induction false} UnpostedKeepsOrder(listing: seq<string>, posted: seq<string>)
    ensures IsSubsequence(Unposted(listing, posted), listing)
  {
    if listing != [] {
      UnpostedKeepsOrder(listing[1..], posted);
      var r := Unposted(listing, posted);
      if listing[0] !in posted {
        assert r[0] == listing[0] && r[1..] == Unposted(listing[1..], posted);
      } else {
        assert r == Unposted(listing[1..], posted);
      }
    }
  }

  /** Each listed path that is not in the history is a candidate as many
      times as it is listed, and a path in the history never is. */
  lemma {:induction false} UnpostedCounts(listing: seq<string>, posted: seq<string>, p: string)
    ensures multiset(Unposted(listing, posted))[p]
            == if p in posted then 0 else multiset(listing)[p]
  {
    if listing != [] {
      var head := if listing[0] in posted then [] else [listing[0]];
      var rest := Unposted(listing[1..], posted);
      UnpostedCounts(listing[1..], posted, p);
      assert multiset(Unposted(listing, posted)) == multiset(head) + multiset(rest);
      assert listing == [listing[0]] + listing[1..];
      assert multiset(listing) == multiset([listing[0]]) + multiset(listing[1..]);
    }
  }

  /** One run of `post_tweet` as seen from outside: nothing was published;
      or `text` was published for `path`; or publishing `text` raised. */
  datatype Attempt =
    | Skipped
    | Posted(path: string, text: string)
    | PublishFailed(path: string, text: string)

  /** The history after an attempt: the path is appended only when the
      publish call returned. */
  function Record(h: seq<string>, a: Attempt): (r: seq<string>)
    ensures h <= r
    ensures |r| == if a.Posted? then |h| + 1 else |h|
    ensures a.Posted? ==> r[|h|] == a.path
  {
    if a.Posted? then h + [a.path] else h
  }

  /** An attempt that touches a path picked it among the candidates. */
  predicate Admissible(h: seq<string>, listing: seq<string>, a: Attempt)
  {
    a.Skipped? || a.path in Unposted(listing, h)
  }

  /** One run keeps a duplicate-free history duplicate-free. */
  lemma RecordKeepsNoDuplicates(h: seq<string>, listing: seq<string>, a: Attempt)
    requires NoDuplicates(h)
    requires Admissible(h, listing, a)
    ensures NoDuplicates(Record(h, a))
  {
    if a.Posted? {
      var r := Record(h, a);
      forall i, j | 0 <= i < j < |r| ensures r[i] != r[j] {
        if j == |h| {
          assert r[i] == h[i];
        }
      }
    }
  }

  /** A failed publish leaves the path a candidate for the next run. */
  lemma FailedStaysCandidate(h: seq<string>, listing: seq<string>, a: Attempt)
    requires Admissible(h, listing, a)
    requires a.PublishFailed?
    ensures Record(h, a) == h
    ensures a.path in Unposted(listing, Record(h, a))
  {
  }

  /** One run of the bot: the Markdown files it listed and what it did. */
  datatype Cycle = Cycle(listing: seq<string>, attempt: Attempt)

  /** The history after a sequence of runs. */
  function Replay(h: seq<string>, cycles: seq<Cycle>): (after: seq<string>)
    decreases |cycles|
  {
    if cycles == [] then h else Replay(Record(h, cycles[0].attempt), cycles[1..])
  }

  /** Every run of the sequence picked among the candidates of its time. */
  predicate AdmissibleRun(h: seq<string>, cycles: seq<Cycle>)
    decreases |cycles|
  {
    cycles == []
    || (Admissible(h, cycles[0].listing, cycles[0].attempt)
        && AdmissibleRun(Record(h, cycles[0].attempt), cycles[1..]))
  }

  /** The paths of the successful publications, in order. */
  function PostedPaths(cycles: seq<Cycle>): (paths: seq<string>)
  {
    if cycles == [] then []
    else (if cycles[0].attempt.Posted? then [cycles[0].attempt.path] else [])
         + PostedPaths(cycles[1..])
  }

  /** After any runs the history is the old history followed by the paths
      published successfully, in the order they were published. */
  lemma {:induction false} ReplayAppendsPosted(h: seq<string>, cycles: seq<Cycle>)
    ensures Replay(h, cycles) == h + PostedPaths(cycles)
    decreases |cycles|
  {
    if cycles != [] {
      var a := cycles[0].attempt;
      ReplayAppendsPosted(Record(h, a), cycles[1..]);
    }
  }

  /** Runs that each pick among their candidates keep a duplicate-free
      history duplicate-free. */
  lemma {:induction false} RunKeepsNoDuplicates(h: seq<string>, cycles: seq<Cycle>)
    requires NoDuplicates(h)
    requires AdmissibleRun(h, cycles)
    ensures NoDuplicates(Replay(h, cycles))
    decreases |cycles|
  {
    if cycles != [] {
      RecordKeepsNoDuplicates(h, cycles[0].listing, cycles[0].attempt);
      RunKeepsNoDuplicates(Record(h, cycles[0].attempt), cycles[1..]);
    }
  }

  /** The history after the first `k` runs. */
  lemma {:induction false} ReplaySplit(h: seq<string>, cycles: seq<Cycle>, k: nat)
    requires k < |cycles|
    requires AdmissibleRun(h, cycles)
    ensures AdmissibleRun(Replay(h, cycles[..k]), cycles[k..])
    ensures Replay(h, cycles[..k + 1]) == Record(Replay(h, cycles[..k]), cycles[k].attempt)
    decreases k
  {
    if k > 0 {
      ReplaySplit(Record(h, cycles[0].attempt), cycles[1..], k - 1);
      assert cycles[1..][..k - 1] == cycles[..k][1..];
      assert cycles[1..][..k] == cycles[..k + 1][1..];
      assert cycles[1..][k - 1..] == cycles[k..];
    } else {
      assert cycles[..1][1..] == [];
    }
  }

  /** Run `k` picked among the candidates left by the runs before it. */
  lemma AdmissibleAt(h: seq<string>, cycles: seq<Cycle>, k: nat)
    requires AdmissibleRun(h, cycles)
    requires k < |cycles|
    ensures Admissible(Replay(h, cycles[..k]), cycles[k].listing, cycles[k].attempt)
  {
    ReplaySplit(h, cycles, k);
    assert cycles[k..][0] == cycles[k];
  }

  /** The history only grows from run to run. */
  lemma ReplayGrows(h: seq<string>, cycles: seq<Cycle>, a: nat, b: nat)
    requires a <= b <= |cycles|
    ensures Replay(h, cycles[..a]) <= Replay(h, cycles[..b])
  {
    assert cycles[..a] + cycles[a..b] == cycles[..b];
    ReplayConcat(h, cycles[..a], cycles[a..b]);
    ReplayAppendsPosted(Replay(h, cycles[..a]), cycles[a..b]);
  }

  /** A path published successfully in run `i` is never published again,
      nor even attempted, in a later run `j`. */
  lemma NeverPostedTwice(h: seq<string>, cycles: seq<Cycle>, i: nat, j: nat)
    requires AdmissibleRun(h, cycles)
    requires i < j < |cycles|
    requires cycles[i].attempt.Posted?
    ensures cycles[j].attempt.Skipped? || cycles[j].attempt.path != cycles[i].attempt.path
  {
    var p := cycles[i].attempt.path;
    ReplaySplit(h, cycles, i);
    var hi := Replay(h, cycles[..i + 1]);
    assert hi[|Replay(h, cycles[..i])|] == p;
    ReplayGrows(h, cycles, i + 1, j);
    var hj := Replay(h, cycles[..j]);
    assert hj[|Replay(h, cycles[..i])|] == p;
    AdmissibleAt(h, cycles, j);
  }

  /** Running two sequences of runs one after the other. */
  lemma {:induction false} ReplayConcat(h: seq<string>, first: seq<Cycle>, second: seq<Cycle>)
    ensures Replay(h, first + second) == Replay(Replay(h, first), second)
    decreases |first|
  {
    if first != [] {
      ReplayConcat(Record(h, first[0].attempt), first[1..], second);
      assert (first + second)[1..] == first[1..] + second;
    } else {
      assert first + second == second;
    }
  }
}
