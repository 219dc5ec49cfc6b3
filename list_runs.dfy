/** The runs of bullet lines of `convert_lists`: a maximal run of N bullet
    lines becomes exactly one `itemize` environment holding N items. */
module ListRuns {
  import opened Text
  import opened Lists

  /** The items a run of bullet lines becomes, one per line. */
  function Items(bs: seq<string>): (r: seq<string>)
    ensures |r| == |bs|
    ensures forall i :: 0 <= i < |bs| ==> r[i] == Item(bs[i])
  {
    seq(|bs|, i requires 0 <= i < |bs| => Item(bs[i]))
  }

  /** A run of bullet lines of any length opens at most one environment, at
      its start, and gives one item per line; what follows is emitted with
      the environment still open. */
  lemma {:induction false} BulletRun(bs: seq<string>, rest: seq<string>, open: bool)
    requires |bs| >= 1 && forall i :: 0 <= i < |bs| ==> IsBullet(bs[i])
    ensures ListOut(bs + rest, open) == (if open then [] else [Begin]) + Items(bs) + ListOut(rest, true)
    decreases |bs|
  {
    var head: seq<string> := if open then [] else [Begin];
    var tail := bs[1..] + rest;
    assert bs + rest == [bs[0]] + tail by {
      AppendAssoc([bs[0]], bs[1..], rest);
      assert [bs[0]] + bs[1..] == bs;
    }
    BulletStep(bs[0], tail, open);
    if |bs| == 1 {
      assert tail == rest;
      assert Items(bs) == [Item(bs[0])];
    } else {
      BulletRun(bs[1..], rest, true);
      ItemsCons(bs);
      RunAssoc(head, Item(bs[0]), Items(bs[1..]), ListOut(rest, true));
    }
  }

  /** A bullet line contributes its item, opening an environment first
      when none is open. */
  lemma BulletStep(b: string, tail: seq<string>, open: bool)
    requires IsBullet(b)
    ensures ListOut([b] + tail, open) == (if open then [] else [Begin]) + [Item(b)] + ListOut(tail, true)
  {
    assert ([b] + tail)[0] == b && ([b] + tail)[1..] == tail;
    ListOutStep([b] + tail, open);
  }

  lemma ItemsCons(bs: seq<string>)
    requires bs != []
    ensures Items(bs) == [Item(bs[0])] + Items(bs[1..])
  {
  }

  lemma RunAssoc(head: seq<string>, x: string, xs: seq<string>, r: seq<string>)
    ensures head + [x] + ([] + xs + r) == head + ([x] + xs) + r
  {
    assert [] + xs + r == xs + r;
    AppendAssoc(head, [x], xs + r);
    AppendAssoc([x], xs, r);
    AppendAssoc(head, [x] + xs, r);
  }

  /** An open environment is closed right before the first line that is no
      bullet, or at the end. */
  lemma RunClose(rest: seq<string>)
    requires rest == [] || !IsBullet(rest[0])
    ensures ListOut(rest, true) == [End] + ListOut(rest, false)
  {
    if rest != [] {
      ListOutStep(rest, true);
      ListOutStep(rest, false);
    }
  }

  /** A maximal run of N bullet lines, entered with no environment open,
      becomes exactly one `\begin{itemize}`, the N items and one
      `\end{itemize}`; the line after the run follows unchanged. */
  lemma MaximalRun(bs: seq<string>, rest: seq<string>)
    requires |bs| >= 1 && forall i :: 0 <= i < |bs| ==> IsBullet(bs[i])
    requires rest == [] || !IsBullet(rest[0])
    ensures ListOut(bs + rest, false) == [Begin] + Items(bs) + [End] + ListOut(rest, false)
    ensures rest != [] ==> ListOut(rest, false) == [rest[0]] + ListOut(rest[1..], false)
  {
    BulletRun(bs, rest, false);
    RunClose(rest);
    AppendAssoc([Begin] + Items(bs), [End], ListOut(rest, false));
    if rest != [] {
      ListOutStep(rest, false);
    }
  }
}
