/** The greedy unit packer shared by the DOCX, TXT and CSV extractors
    (document_ingestor.py). Whole units (paragraphs or lines) are appended
    to an open chunk, joined by a newline; the chunk is closed before a unit
    that would take the chunk, the newline and the unit together past
    `chunk_size` characters.
    `chunk_overlap` is accepted by the extractors but never read. */
module LinePacker {
  import opened Seqs
  import opened Text
  import opened Chunks

  /** The open chunk, emitted only when non-empty (`if current:`). */
  function Flush(current: string): seq<string>
  {
    if current != "" then [current] else []
  }

  /** The buffer after taking in `unit`: joined to it by a newline, or just
      `unit` when the buffer is empty. */
  function Append(current: string, unit: string): string
  {
    if current != "" then current + "\n" + unit else unit
  }

  /** The loop over `units` with open chunk `current`, as the source runs it. */
  function PackFrom(units: seq<string>, size: int, current: string): (chunks: seq<string>)
    ensures forall c :: c in chunks ==> c != ""
    decreases |units|
  {
    if |units| == 0 then Flush(current)
    else if |current| + |units[0]| + 1 > size then
      Flush(current) + PackFrom(units[1..], size, units[0])
    else
      PackFrom(units[1..], size, Append(current, units[0]))
  }

  /** The chunk strings produced from `units`. */
  function Pack(units: seq<string>, size: int): seq<string>
  {
    PackFrom(units, size, "")
  }

  /** What each of the three extractors returns: chunks tagged 1..n. */
  function PackChunks(units: seq<string>, size: int, overlap: int): (r: seq<Chunk>)
    ensures |units| == 0 ==> r == []
    ensures forall i :: 0 <= i < |r| ==> r[i].page == i + 1 && r[i].text != ""
    ensures Texts(r) == Pack(units, size)
  {
    var texts := Pack(units, size);
    assert forall i :: 0 <= i < |texts| ==> texts[i] in texts;
    Tag(texts)
  }

  /** The output does not depend on the overlap argument. */
  lemma OverlapIgnored(units: seq<string>, size: int, o1: int, o2: int)
    ensures PackChunks(units, size, o1) == PackChunks(units, size, o2)
  {
  }

  // ---------------------------------------------------------------------
  // The unit-group view: the same greedy decisions, keeping the units of
  // each chunk instead of their joined text.

  function Emit(group: seq<string>): seq<seq<string>>
  {
    if group != [] then [group] else []
  }

  function GroupFrom(units: seq<string>, size: int, group: seq<string>): (groups: seq<seq<string>>)
    ensures forall i :: 0 <= i < |groups| ==> groups[i] != []
    ensures group != [] ==> |groups| >= 1 && groups[0][0] == group[0]
    decreases |units|
  {
    if |units| == 0 then Emit(group)
    else if |Join(group, '\n')| + |units[0]| + 1 > size then
      Emit(group) + GroupFrom(units[1..], size, [units[0]])
    else
      GroupFrom(units[1..], size, group + [units[0]])
  }

  /** The units of each emitted chunk, in order. */
  function Groups(units: seq<string>, size: int): seq<seq<string>>
  {
    GroupFrom(units, size, [])
  }

  /** The text of each group, as the chunk string the source builds. */
  function JoinEach(groups: seq<seq<string>>): (texts: seq<string>)
    ensures |texts| == |groups|
  {
    if |groups| == 0 then [] else [Join(groups[0], '\n')] + JoinEach(groups[1..])
  }

  lemma {:induction false} JoinEachAppend(a: seq<seq<string>>, b: seq<seq<string>>)
    ensures JoinEach(a + b) == JoinEach(a) + JoinEach(b)
    decreases |a|
  {
    if |a| == 0 {
      assert a + b == b;
    } else {
      assert (a + b)[1..] == a[1..] + b;
      JoinEachAppend(a[1..], b);
    }
  }

  predicate NoEmptyUnit(units: seq<string>)
  {
    forall u :: u in units ==> u != ""
  }

  /** With non-empty units the string-level loop and the group-level loop
      agree: every chunk string is its group's units joined by newlines. */
  lemma {:induction false} PackFromIsJoinedGroups(units: seq<string>, size: int, current: string, group: seq<string>)
    requires NoEmptyUnit(units) && NoEmptyUnit(group)
    requires current == Join(group, '\n')
    ensures PackFrom(units, size, current) == JoinEach(GroupFrom(units, size, group))
    decreases |units|
  {
    if group != [] {
      JoinStartsWithFirst(group, '\n');
      assert group[0] in group;
    }
    assert current == "" <==> group == [];
    if |units| == 0 {
    } else {
      var u := units[0];
      assert u in units;
      assert NoEmptyUnit(units[1..]) by {
        forall x | x in units[1..] ensures x != "" {
          assert x in units;
        }
      }
      if |current| + |u| + 1 > size {
        PackFromIsJoinedGroups(units[1..], size, u, [u]);
        JoinEachAppend(Emit(group), GroupFrom(units[1..], size, [u]));
      } else {
        if group != [] {
          JoinSnoc(group, u, '\n');
        }
        PackFromIsJoinedGroups(units[1..], size, Append(current, u), group + [u]);
      }
    }
  }

  /** No unit is split, duplicated or lost: the groups flatten to the input. */
  lemma {:induction false} GroupFromFlattens(units: seq<string>, size: int, group: seq<string>)
    ensures Flatten(GroupFrom(units, size, group)) == group + units
    decreases |units|
  {
    if |units| == 0 {
      if group != [] {
        assert Flatten([group]) == group + Flatten([group][1..]);
      }
    } else {
      var u := units[0];
      assert units == [u] + units[1..];
      if |Join(group, '\n')| + |u| + 1 > size {
        GroupFromFlattens(units[1..], size, [u]);
        FlattenAppend(Emit(group), GroupFrom(units[1..], size, [u]));
        if group != [] {
          assert Flatten([group]) == group + Flatten([group][1..]);
        }
      } else {
        GroupFromFlattens(units[1..], size, group + [u]);
      }
    }
  }

  /** Only a single-unit chunk may be longer than `chunk_size`. */
  lemma {:induction false} GroupFromBound(units: seq<string>, size: int, group: seq<string>)
    requires |group| >= 2 ==> |Join(group, '\n')| <= size
    ensures forall g :: g in GroupFrom(units, size, group) && |g| >= 2 ==> |Join(g, '\n')| <= size
    decreases |units|
  {
    if |units| > 0 {
      var u := units[0];
      if |Join(group, '\n')| + |u| + 1 > size {
        GroupFromBound(units[1..], size, [u]);
      } else {
        if group != [] {
          JoinSnoc(group, u, '\n');
        }
        GroupFromBound(units[1..], size, group + [u]);
      }
    }
  }

  /** Greedy maximality: the first unit of each group would not have fit
      into the group before it. */
  predicate Greedy(gs: seq<seq<string>>, size: int)
  {
    forall i :: 0 <= i < |gs| - 1 && gs[i + 1] != [] ==> |Join(gs[i], '\n')| + |gs[i + 1][0]| + 1 > size
  }

  lemma {:induction false} GroupFromGreedy(units: seq<string>, size: int, group: seq<string>)
    ensures Greedy(GroupFrom(units, size, group), size)
    decreases |units|
  {
    if |units| > 0 {
      var u := units[0];
      if |Join(group, '\n')| + |u| + 1 > size {
        GroupFromGreedy(units[1..], size, [u]);
        var rest := GroupFrom(units[1..], size, [u]);
        assert rest[0][0] == u;
        if group != [] {
          var gs := [group] + rest;
          assert GroupFrom(units, size, group) == gs;
          forall i | 0 <= i < |gs| - 1 && gs[i + 1] != []
            ensures |Join(gs[i], '\n')| + |gs[i + 1][0]| + 1 > size
          {
            if i > 0 {
              assert gs[i] == rest[i - 1] && gs[i + 1] == rest[i];
            } else {
              assert gs[0] == group && gs[1] == rest[0];
            }
          }
        }
      } else {
        GroupFromGreedy(units[1..], size, group + [u]);
      }
    }
  }

  /** The packer partitions its units: when no unit is empty, the chunks are
      exactly the newline-joined groups of a partition of the unit sequence,
      every multi-unit chunk fits `size`, and every chunk is maximal. */
  lemma PackPartitionsUnits(units: seq<string>, size: int)
    requires NoEmptyUnit(units)
    ensures var gs := Groups(units, size);
            && Pack(units, size) == JoinEach(gs)
            && Flatten(gs) == units
            && (forall i :: 0 <= i < |gs| ==> gs[i] != [])
            && (forall g :: g in gs && |g| >= 2 ==> |Join(g, '\n')| <= size)
            && Greedy(gs, size)
  {
    PackFromIsJoinedGroups(units, size, "", []);
    GroupFromFlattens(units, size, []);
    GroupFromBound(units, size, []);
    GroupFromGreedy(units, size, []);
  }

  /** For any units (empty ones included), a chunk longer than `size` is one
      of the input units, taken whole. */
  lemma {:induction false} PackFromLong(units: seq<string>, size: int, current: string, seen: set<string>)
    requires |current| <= size || current in seen
    ensures forall c :: c in PackFrom(units, size, current) ==> |c| <= size || c in seen || c in units
    decreases |units|
  {
    if |units| > 0 {
      var u := units[0];
      var rest := units[1..];
      assert forall x :: x in rest ==> x in units;
      if |current| + |u| + 1 > size {
        PackFromLong(rest, size, u, seen + {u});
      } else {
        PackFromLong(rest, size, Append(current, u), seen + {u});
      }
    }
  }

  lemma PackLongChunkIsUnit(units: seq<string>, size: int)
    ensures forall c :: c in Pack(units, size) && |c| > size ==> c in units
  {
    if size >= 0 {
      PackFromLong(units, size, "", {});
    } else {
      PackFromLong(units, size, "", {""});
    }
  }
}
