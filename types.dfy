/** The records that flow through the subtitle pipeline, and the
    success-or-failure wrappers used for its error paths. */
module Types {

  datatype Option<T> = None | Some(value: T)

  datatype Result<T, E> = Ok(value: T) | Err(error: E)

  /** One recognised word, `{"word", "start", "end"}`, times in seconds. */
  datatype Word = Word(word: string, start: real, end: real)

  /** One subtitle line, `{"text", "start", "end"}`, times in seconds. */
  datatype Segment = Segment(text: string, start: real, end: real)

  /** The timing every subtitle list must keep: no segment runs backwards,
      and none starts before the one ahead of it has ended. */
  predicate Ordered(segs: seq<Segment>) {
    (forall j :: 0 <= j < |segs| ==> segs[j].start <= segs[j].end)
    && (forall j :: 0 <= j < |segs| - 1 ==> segs[j].end <= segs[j + 1].start)
  }

  /** Two ordered lists, the second starting no earlier than the first ends,
      make an ordered list. */
  lemma OrderedAppend(a: seq<Segment>, b: seq<Segment>)
    requires Ordered(a) && Ordered(b)
    requires a != [] && b != [] ==> a[|a| - 1].end <= b[0].start
    ensures Ordered(a + b)
  {
    var s := a + b;
    forall j | 0 <= j < |s| - 1 ensures s[j].end <= s[j + 1].start {
      if j == |a| - 1 {
        assert s[j] == a[j] && s[j + 1] == b[0];
      } else if j < |a| {
        assert s[j] == a[j] && s[j + 1] == a[j + 1];
      } else {
        assert s[j] == b[j - |a|] && s[j + 1] == b[j - |a| + 1];
      }
    }
  }

  /** An ordered list is sorted by start time. */
  lemma {:induction false} OrderedSortedByStart(segs: seq<Segment>)
    requires Ordered(segs)
    ensures forall i, k :: 0 <= i <= k < |segs| ==> segs[i].start <= segs[k].start
    decreases |segs|
  {
    if segs != [] {
      var init := segs[..|segs| - 1];
      assert Ordered(init);
      OrderedSortedByStart(init);
      forall i, k | 0 <= i <= k < |segs| ensures segs[i].start <= segs[k].start {
        if k < |segs| - 1 {
          assert segs[i] == init[i] && segs[k] == init[k];
        } else if i < k {
          assert segs[i].start <= init[k - 1].start;
        }
      }
    }
  }

  lemma AppendAssoc<T>(a: seq<T>, b: seq<T>, c: seq<T>)
    ensures (a + b) + c == a + (b + c)
  {
  }

  lemma TakeSnoc<T>(s: seq<T>, i: nat)
    requires i < |s|
    ensures s[..i + 1] == s[..i] + [s[i]]
  {
  }

  lemma TakeAll<T>(s: seq<T>)
    ensures s[..|s|] == s
  {
  }
}
