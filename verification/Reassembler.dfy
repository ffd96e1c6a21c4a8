/** The reassembler object. */
module Reassemblers {
  import opened Numbers
  import opened StreamModel
  import opened ByteStreams
  import opened ReassemblerModel
  import Model = ReassemblerModel
  import Out = StreamModel

  class Reassembler {
    const output: ByteStream
    var segs: seq<Seg>
    var next: nat
    var last: nat
    var hasLast: bool

    ghost predicate Valid()
      reads this, output, output.content
    {
      output.Valid() && Ordered(segs)
    }

    ghost function View(): Reassembly
      requires Valid()
      reads this, output, output.content
    {
      Reassembly(output.View(), segs, next, last, hasLast)
    }

    constructor (output: ByteStream)
      requires output.Valid()
      ensures this.output == output && Valid()
      ensures View() == Reassembly(output.View(), [], 0, 0, false)
    {
      this.output := output;
      segs, next, last, hasLast := [], 0, 0, false;
    }

    method Insert(first: u64, data: seq<byte>, isLast: bool)
      requires Valid()
      modifies this, output, output.content
      ensures Valid() && View() == Model.Insert(old(View()), first, data, isLast)
    {
      if isLast {
        last, hasLast := U64(first + |data|), true;
      }
      assert View() == NoteLast(old(View()), first, |data|, isLast);
      var dropped := PlaceSubstring(first, data);
      if dropped {
        return;
      }
      DrainLoop();
      if hasLast && next == last {
        output.Close();
      }
    }

    method SetError()
      requires Valid()
      modifies output`error
      ensures Valid() && View() == Model.SetError(old(View()))
    {
      output.SetError();
    }

    /** The case split of insert: write data out, store it, or drop it. */
    method PlaceSubstring(first: u64, data: seq<byte>) returns (dropped: bool)
      requires Valid()
      modifies this`segs, this`next, output, output.content
      ensures Valid() && dropped == Dropped(old(View()), first, |data|)
      ensures View() == if dropped then old(View()) else Place(old(View()), first, data)
    {
      dropped := false;
      if first < next {
        if first + |data| <= next {
          dropped := true;
        } else {
          WriteNew(first, data);
        }
      } else if first == next {
        WriteNew(first, data);
      } else if first < next + output.AvailableCapacity() {
        if next + output.AvailableCapacity() < first + |data| {
          StoreSegment(SegValue(first, next + output.AvailableCapacity(), data, 0));
        } else {
          StoreSegment(SegValue(first, first + |data|, data, 0));
        }
      } else {
        dropped := true;
      }
    }

    method StoreSegment(g: Seg)
      requires Valid()
      modifies this`segs
      ensures Valid() && segs == Emplace(old(segs), g)
    {
      EmplaceOrdered(segs, g);
      segs := Emplace(segs, g);
    }

    /** The two branches that write out a substring starting at or before next. */
    method WriteNew(first: u64, data: seq<byte>)
      requires Valid() && first <= next <= first + |data|
      modifies this`segs, this`next, output, output.content
      ensures Valid() && View() == WriteOut(old(View()), first, data)
    {
      hide ByteStream.Valid, ByteStream.View;
      var avail := output.AvailableCapacity();
      if first < next {
        if first + |data| >= next + avail {
          Write(data[next - first..][..avail], avail);
          segs := [];
        } else {
          Write(data[next - first..], first + |data| - next);
        }
      } else if |data| <= avail {
        Write(data, |data|);
      } else {
        Write(data, avail);
        segs := [];
      }
    }

    /** Push data to the output and advance next. */
    method Write(data: seq<byte>, advance: nat)
      requires Valid()
      modifies this`next, output, output.content
      ensures Valid()
      ensures View() == WriteStep(old(View()), data, advance)
    {
      output.Push(data);
      next := next + advance;
    }

    /** The erase loop of insert. */
    method DrainLoop()
      requires Valid()
      modifies this`segs, this`next, output, output.content
      ensures Valid() && View() == Drain(old(View()))
    {
      while segs != []
        invariant Valid()
        invariant Drain(View()) == Drain(old(View()))
        invariant last == old(last) && hasLast == old(hasLast)
        decreases |segs|
      {
        var g := segs[0];
        if next < g.begin {
          break;
        }
        if next >= g.end {
          segs := segs[1..];
          continue;
        }
        WriteSegment();
      }
    }

    /** Write out and erase the first stored segment, which contains next. */
    method WriteSegment()
      requires Valid() && segs != [] && segs[0].begin <= next < segs[0].end
      modifies this`segs, this`next, output, output.content
      ensures Valid() && View() == DrainStep(old(View()))
    {
      var g := segs[0];
      Write(Piece(g, next), g.end - next);
      segs := segs[1..];
    }

    /** One sweep over the ordered segments counts the union of their intervals, overlaps and nesting
        included. */
    method BytesPending() returns (res: nat)
      requires Valid()
      ensures res == |Covered(segs)|
    {
      if segs == [] {
        return 0;
      }
      res := segs[0].end - segs[0].begin;
      var end := segs[0].end;
      var i := 1;
      SweptFirst(segs);
      while i < |segs|
        invariant 1 <= i <= |segs| && Swept(segs, i, res, end)
        decreases |segs| - i
      {
        SweptNext(segs, i, res, end);
        hide Swept, Covered, Ordered;
        if segs[i].end > end {
          if segs[i].begin <= end {
            res := res + (segs[i].end - end);
          } else {
            res := res + (segs[i].end - segs[i].begin);
          }
          end := segs[i].end;
        }
        i := i + 1;
      }
      assert segs[..i] == segs;
    }
  }

  /** After the first i segments `res` positions have been counted, and `end` is the furthest end. */
  ghost predicate Swept(segs: seq<Seg>, i: nat, res: nat, end: nat) {
    i <= |segs| && res == |Covered(segs[..i])| && Furthest(segs[..i], end)
  }

  lemma SweptFirst(segs: seq<Seg>)
    requires segs != []
    ensures Swept(segs, 1, segs[0].end - segs[0].begin, segs[0].end)
  {
    CoveredFirst(segs);
    assert segs[..1] == [segs[0]];
  }

  /** One round of the sweep. */
  lemma SweptNext(segs: seq<Seg>, i: nat, res: nat, end: nat)
    requires Ordered(segs) && 1 <= i < |segs| && Swept(segs, i, res, end)
    ensures var g := segs[i];
            var more := if g.end <= end then 0 else if g.begin <= end then g.end - end else g.end - g.begin;
            Swept(segs, i + 1, res + more, Max(end, g.end))
  {
    CoveredStep(segs, i, end);
    FurthestStep(segs, i, end);
  }

  lemma CoveredFirst(segs: seq<Seg>)
    requires segs != []
    ensures |Covered(segs[..1])| == segs[0].end - segs[0].begin
  {
    IntervalSize(segs[0].begin, segs[0].end);
    assert Covered(segs[..1]) == Interval(segs[0].begin, segs[0].end) + Covered(segs[..1][1..]);
  }

  /** `end` is the largest end of the given segments. */
  ghost predicate Furthest(segs: seq<Seg>, end: nat) {
    (forall g :: g in segs ==> g.end <= end) && (exists g :: g in segs && g.end == end)
  }

  lemma FurthestStep(segs: seq<Seg>, i: nat, end: nat)
    requires 1 <= i < |segs| && Furthest(segs[..i], end)
    ensures Furthest(segs[..i + 1], Max(end, segs[i].end))
  {
    assert segs[..i + 1] == segs[..i] + [segs[i]];
    var h :| h in segs[..i] && h.end == end;
    assert h in segs[..i + 1] && segs[i] in segs[..i + 1];
  }

  /** What segment i adds to the union of the earlier ones, whose furthest end is `end`. */
  lemma CoveredStep(segs: seq<Seg>, i: nat, end: nat)
    requires Ordered(segs) && 1 <= i < |segs|
    requires Furthest(segs[..i], end)
    ensures |Covered(segs[..i + 1])| == |Covered(segs[..i])| + Max(0, segs[i].end - Max(end, segs[i].begin))
  {
    var g := segs[i];
    var extra := Interval(Max(end, g.begin), g.end);
    assert segs[..i + 1] == segs[..i] + [g];
    CoveredAppend(segs[..i], g);
    forall p | p in Covered(segs[..i])
      ensures p !in extra
    {
      InCovered(segs[..i], p);
    }
    forall p | g.begin <= p < g.end && p !in extra
      ensures p in Covered(segs[..i])
    {
      var h :| h in segs[..i] && h.end == end;
      assert Less(h, g);
      InCovered(segs[..i], p);
    }
    assert Covered(segs[..i + 1]) == Covered(segs[..i]) + extra;
    IntervalSize(Max(end, g.begin), g.end);
  }
}
