/**
 * ClassUtils.ToString: the items of an array rendered as one comma-separated
 * line. Each item is taken here as the text its own ToString() gives.
 *
 * The loop tests `s == ""` to decide whether an item is the first, so while
 * the text built so far is empty no separator is written: empty items at the
 * front leave no trace. ToString is the loop as written; JoinItems is the
 * behaviour of String.Join(", ", items) that the loop evidently aims at.
 */
module ClassUtils {
  import opened Text

  /** The separator written between two items. */
  const Separator: string := ", "

  /** What the loop as written accumulates over `items`, item by item. */
  function JoinAsWritten(items: seq<string>): string
  {
    if |items| == 0 then ""
    else
      var s := JoinAsWritten(items[..|items| - 1]);
      var t := items[|items| - 1];
      if s == "" then t else s + Separator + t
  }

  /** `items` without its leading run of empty items. */
  function DropLeadingEmpty(items: seq<string>): (r: seq<string>)
    ensures |r| <= |items| && r == items[|items| - |r|..]
    ensures |r| > 0 ==> r[0] != ""
    ensures forall i :: 0 <= i < |items| - |r| ==> items[i] == ""
  {
    if |items| == 0 || items[0] != "" then items else DropLeadingEmpty(items[1..])
  }

  /** ToString(T[]) as written. */
  method ToString(items: seq<string>) returns (s: string)
    ensures s == JoinAsWritten(items)
  {
    s := "";
    for i := 0 to |items|
      invariant s == JoinAsWritten(items[..i])
    {
      assert items[..i + 1][..i] == items[..i];
      var t := items[i];
      if s == "" {
        s := t;
      } else {
        s := s + Separator + t;
      }
    }
    assert items[..|items|] == items;
  }

  /** The as-written loop text is empty exactly when every item is. */
  lemma {:induction false} JoinAsWrittenEmpty(items: seq<string>)
    ensures JoinAsWritten(items) == "" <==> forall i :: 0 <= i < |items| ==> items[i] == ""
    decreases |items|
  {
    if |items| > 0 {
      var init := items[..|items| - 1];
      JoinAsWrittenEmpty(init);
      assert forall i :: 0 <= i < |init| ==> init[i] == items[i];
    }
  }

  /**
   * What the loop as written computes: the items joined with ", ", once the
   * empty items at the front are dropped.
   */
  lemma {:induction false} JoinAsWrittenDropsLeading(items: seq<string>)
    ensures JoinAsWritten(items) == Join(DropLeadingEmpty(items), Separator)
    decreases |items|
  {
    if |items| > 0 {
      var init := items[..|items| - 1];
      var t := items[|items| - 1];
      assert items == init + [t];
      JoinAsWrittenDropsLeading(init);
      var d := DropLeadingEmpty(init);
      JoinAsWrittenEmpty(init);
      if JoinAsWritten(init) == "" {
        // every item of init is empty, so only t can remain
        DropAllEmpty(init, t);
      } else {
        assert |d| >= 1;
        DropLeadingSnoc(init, t);
        JoinSnoc(d, t, Separator);
      }
    }
  }

  lemma {:induction false} DropAllEmpty(init: seq<string>, t: string)
    requires forall i :: 0 <= i < |init| ==> init[i] == ""
    ensures Join(DropLeadingEmpty(init + [t]), Separator) == t
    decreases |init|
  {
    if |init| == 0 {
      assert init + [t] == [t];
      if t == "" {
        assert DropLeadingEmpty([t]) == DropLeadingEmpty([]);
      }
    } else {
      assert (init + [t])[1..] == init[1..] + [t];
      DropAllEmpty(init[1..], t);
    }
  }

  lemma {:induction false} DropLeadingSnoc(init: seq<string>, t: string)
    requires |DropLeadingEmpty(init)| >= 1
    ensures DropLeadingEmpty(init + [t]) == DropLeadingEmpty(init) + [t]
    decreases |init|
  {
    if init[0] == "" {
      assert (init + [t])[1..] == init[1..] + [t];
      DropLeadingSnoc(init[1..], t);
    }
  }

  /** Without an empty item at the front, the loop as written agrees with String.Join. */
  lemma JoinAsWrittenAgrees(items: seq<string>)
    requires |items| == 0 || items[0] != ""
    ensures JoinAsWritten(items) == Join(items, Separator)
  {
    JoinAsWrittenDropsLeading(items);
  }

  /** The input that shows the dropped separator: an empty item, then "b". */
  lemma JoinAsWrittenDropsSeparator()
    ensures JoinAsWritten(["", "b"]) == "b"
    ensures Join(["", "b"], Separator) == ", b"
  {
    assert ["", "b"][..1] == [""];
    assert [""][..0] == [];
    assert ["", "b"][1..] == ["b"];
  }

  // ---------------------------------------------------------------------------
  // The intended behaviour

  function TotalLength(items: seq<string>): nat
  {
    if |items| == 0 then 0 else |items[0]| + TotalLength(items[1..])
  }

  /** The joined text is as long as the items together with one separator between each two. */
  lemma {:induction false} JoinLength(items: seq<string>)
    requires |items| >= 1
    ensures |Join(items, Separator)| == TotalLength(items) + |Separator| * (|items| - 1)
  {
    if |items| > 1 {
      JoinLength(items[1..]);
    }
  }

  /**
   * The join cut between any two items: the join of the items before the cut,
   * one separator, and the join of the items after it.
   */
  lemma {:induction false} JoinAt(items: seq<string>, i: nat)
    requires 0 < i < |items|
    ensures Join(items, Separator) == Join(items[..i], Separator) + Separator + Join(items[i..], Separator)
    decreases i
  {
    if i == 1 {
      assert items[..1] == [items[0]];
    } else {
      var tail := items[1..];
      JoinAt(tail, i - 1);
      assert items[..i][1..] == tail[..i - 1];
      assert tail[i - 1..] == items[i..];
    }
  }

  /** ToString with the first item told apart by its position rather than by the text so far. */
  method JoinItems(items: seq<string>) returns (s: string)
    ensures s == Join(items, Separator)
  {
    s := "";
    for i := 0 to |items|
      invariant s == Join(items[..i], Separator)
    {
      if i == 0 {
        s := items[0];
        assert items[..1] == [items[0]];
      } else {
        JoinSnoc(items[..i], items[i], Separator);
        assert items[..i + 1] == items[..i] + [items[i]];
        s := s + Separator + items[i];
      }
    }
    assert items[..|items|] == items;
  }
}
