/** The simple chunker: paragraphs packed greedily into chunks joined by blank lines. */
module Packer {
  import opened Text

  function Flatten(groups: seq<seq<string>>): seq<string> {
    if groups == [] then [] else groups[0] + Flatten(groups[1..])
  }

  /** A group may be a chunk: it fits the size when joined, or it is one paragraph. */
  predicate Fits(group: seq<string>, size: int) {
    group != [] && (|group| == 1 || |JoinBlank(group)| <= size)
  }

  /** An order-preserving grouping of the paragraphs in which every group may be a chunk. */
  predicate IsGrouping(paras: seq<string>, groups: seq<seq<string>>, size: int) {
    Flatten(groups) == paras && forall g :: g in groups ==> Fits(g, size)
  }

  /** The groups the loop makes of the paragraphs still to come, current being the open one. */
  function Pack(current: seq<string>, rest: seq<string>, size: int): seq<seq<string>>
    decreases |rest|
  {
    if rest == [] then (if current == [] then [] else [current])
    else if current == [] then Pack([rest[0]], rest[1..], size)
    else if |JoinBlank(current)| + 2 + |rest[0]| <= size then Pack(current + [rest[0]], rest[1..], size)
    else [current] + Pack([rest[0]], rest[1..], size)
  }

  lemma JoinLonger(current: seq<string>, p: string)
    requires current != []
    ensures JoinBlank(current + [p]) == JoinBlank(current) + "\n\n" + p
  {
    JoinAppend(current, [p]);
  }

  lemma {:induction false} PackGroups(current: seq<string>, rest: seq<string>, size: int)
    requires current == [] || Fits(current, size)
    ensures IsGrouping(current + rest, Pack(current, rest, size), size)
    ensures current != [] ==> Pack(current, rest, size) != []
    decreases |rest|
  {
    if rest == [] {
      assert current + rest == current;
      assert current != [] ==> Flatten([current]) == current + Flatten([]);
    } else {
      var p, tail := rest[0], rest[1..];
      if current == [] {
        PackGroups([p], tail, size);
        assert current + rest == [p] + tail;
      } else if |JoinBlank(current)| + 2 + |p| <= size {
        JoinLonger(current, p);
        PackGroups(current + [p], tail, size);
        assert current + rest == current + [p] + tail;
      } else {
        PackGroups([p], tail, size);
        assert rest == [p] + tail;
        var groups := [current] + Pack([p], tail, size);
        assert groups[1..] == Pack([p], tail, size);
      }
    }
  }

  /** A contiguous part of a group joins to no more characters than the group. */
  lemma JoinPart(before: seq<string>, part: seq<string>, after: seq<string>)
    requires part != []
    ensures |JoinBlank(part)| <= |JoinBlank(before + part + after)|
  {
    if before != [] {
      JoinAppend(before, part);
    } else {
      assert before + part == part;
    }
    if after != [] {
      JoinAppend(before + part, after);
    } else {
      assert before + part + after == before + part;
    }
  }

  /** Greedy stays ahead: when a rival still has to place everything the packer has (and perhaps more
      before it), the packer needs no more groups than the rival. */
  lemma {:induction false} StaysAhead(
    extra: seq<string>, current: seq<string>, rest: seq<string>, rival: seq<seq<string>>, size: int)
    requires current != [] && IsGrouping(extra + current + rest, rival, size)
    ensures |Pack(current, rest, size)| <= |rival|
    decreases |rest|, |extra|
  {
    var all := extra + current + rest;
    assert all != [] && Flatten(rival) == all;
    if rest != [] {
      var p, tail := rest[0], rest[1..];
      assert rest == [p] + tail;
      JoinLonger(current, p);
      if |JoinBlank(current)| + 2 + |p| <= size {
        assert all == extra + (current + [p]) + tail;
        StaysAhead(extra, current + [p], tail, rival, size);
      } else {
        var g, others := rival[0], rival[1..];
        var covered := extra + current;
        assert all == g + Flatten(others);
        assert |g| <= |covered| by {
          assert Fits(g, size);
          if |g| > |covered| {
            var after := g[|covered| + 1..];
            assert g == all[..|g|];
            assert g == extra + (current + [p]) + after;
            JoinPart(extra, current + [p], after);
          }
        }
        var extra' := covered[|g|..];
        assert extra' + [p] + tail == all[|g|..] == Flatten(others);
        StaysAhead(extra', [p], tail, others, size);
      }
    }
  }

  /** No grouping of the paragraphs into chunks that fit has fewer chunks. */
  lemma PackingOptimal(paras: seq<string>, rival: seq<seq<string>>, size: int)
    requires IsGrouping(paras, rival, size)
    ensures IsGrouping(paras, Pack([], paras, size), size)
    ensures |Pack([], paras, size)| <= |rival|
  {
    PackGroups([], paras, size);
    assert [] + paras == paras;
    if paras != [] {
      assert [] + [paras[0]] + paras[1..] == paras;
      StaysAhead([], [paras[0]], paras[1..], rival, size);
    }
  }

  /** No chunk could also take the first paragraph of the next one. */
  lemma {:induction false} PackingMaximal(current: seq<string>, rest: seq<string>, size: int, i: nat)
    requires current == [] || Fits(current, size)
    requires i + 1 < |Pack(current, rest, size)|
    ensures var groups := Pack(current, rest, size);
            groups[i + 1] != [] && |JoinBlank(groups[i] + [groups[i + 1][0]])| > size
    decreases |rest|
  {
    var p, tail := rest[0], rest[1..];
    if current == [] {
      PackingMaximal([p], tail, size, i);
    } else {
      JoinLonger(current, p);
      if |JoinBlank(current)| + 2 + |p| <= size {
        PackingMaximal(current + [p], tail, size, i);
      } else if i == 0 {
        PackStarts([p], tail, size);
      } else {
        PackingMaximal([p], tail, size, i - 1);
      }
    }
  }

  lemma {:induction false} PackStarts(current: seq<string>, rest: seq<string>, size: int)
    requires current != []
    ensures var groups := Pack(current, rest, size); groups != [] && groups[0] != [] && groups[0][0] == current[0]
    decreases |rest|
  {
    if rest != [] && |JoinBlank(current)| + 2 + |rest[0]| <= size {
      PackStarts(current + [rest[0]], rest[1..], size);
    }
  }

  function JoinAll(groups: seq<seq<string>>): (texts: seq<string>)
    ensures |texts| == |groups|
  {
    if groups == [] then [] else [JoinBlank(groups[0])] + JoinAll(groups[1..])
  }

  /** Joining the joined groups is joining the paragraphs. */
  lemma {:induction false} JoinJoined(groups: seq<seq<string>>)
    requires forall g :: g in groups ==> g != []
    ensures JoinBlank(JoinAll(groups)) == JoinBlank(Flatten(groups))
  {
    if |groups| == 1 {
      assert Flatten(groups) == groups[0] + Flatten([]);
      assert Flatten(groups) == groups[0];
    } else if groups != [] {
      var rest := groups[1..];
      assert forall g :: g in rest ==> g in groups;
      JoinJoined(rest);
      assert groups[0] in groups && rest[0] in rest && Flatten(rest) == rest[0] + Flatten(rest[1..]);
      JoinAppend(groups[0], Flatten(rest));
      assert JoinAll(groups)[1..] == JoinAll(rest);
    }
  }
}
