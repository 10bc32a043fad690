/**
 * The name index of the import (class `Transforms`): every node of the
 * selected hierarchy under its name, last one wins, and the sorted set of
 * names that occur more than once.
 */
module Names {
  import opened Wrappers
  import opened Json
  import Formatter

  type NodeId = nat

  /**
   * Ordinal order on strings, by character code. (`SortedSet<string>` uses
   * the culture-aware default comparer; the model orders ordinally.)
   */
  predicate Less(a: string, b: string)
    decreases |a|
  {
    if a == [] then b != []
    else if b == [] then false
    else if a[0] != b[0] then a[0] < b[0]
    else Less(a[1..], b[1..])
  }

  lemma LessIrreflexive(a: string)
    ensures !Less(a, a)
  {
  }

  lemma {:induction false} LessTransitive(a: string, b: string, c: string)
    requires Less(a, b) && Less(b, c)
    ensures Less(a, c)
    decreases |a|
  {
    if a != [] && b != [] && c != [] && a[0] == b[0] == c[0] {
      LessTransitive(a[1..], b[1..], c[1..]);
    }
  }

  lemma {:induction false} LessTotal(a: string, b: string)
    requires a != b
    ensures Less(a, b) || Less(b, a)
    decreases |a|
  {
    if a != [] && b != [] && a[0] == b[0] {
      LessTotal(a[1..], b[1..]);
    }
  }

  lemma LessAsymmetric(a: string, b: string)
    requires Less(a, b)
    ensures !Less(b, a)
  {
    if Less(b, a) {
      LessTransitive(a, b, a);
      LessIrreflexive(a);
    }
  }

  /** Strictly increasing: what a `SortedSet` enumerates. */
  predicate Sorted(s: seq<string>) {
    forall i, j :: 0 <= i < j < |s| ==> Less(s[i], s[j])
  }

  /** `SortedSet.Add`: `x` joins the set in order, unless it is already there. */
  function Insert(s: seq<string>, x: string): (r: seq<string>)
    requires Sorted(s)
    ensures Sorted(r)
    ensures forall y :: y in r <==> y in s || y == x
    decreases |s|
  {
    if s == [] then [x]
    else if s[0] == x then s
    else if Less(x, s[0]) then
      assert forall j :: 0 <= j < |s| ==> Less(x, s[j]) by {
        forall j | 0 <= j < |s| ensures Less(x, s[j]) {
          if j > 0 { LessTransitive(x, s[0], s[j]); }
        }
      }
      [x] + s
    else
      LessTotal(x, s[0]);
      var rest := Insert(s[1..], x);
      assert forall y :: y in rest ==> Less(s[0], y);
      [s[0]] + rest
  }

  /** The dictionary the `Transforms` constructor builds over a traversal. */
  function NameIndex(names: seq<string>): (m: map<string, NodeId>)
    ensures forall k :: k in m <==> k in names
    ensures forall k :: k in m ==> m[k] < |names| && names[m[k]] == k
    ensures forall k, j :: k in m && m[k] < j < |names| ==> names[j] != k
    decreases |names|
  {
    if names == [] then map[]
    else
      var n := |names| - 1;
      var init := names[..n];
      var m := NameIndex(init);
      IndexesSnoc(init, names[n], m);
      assert init + [names[n]] == names;
      m[names[n] := n]
  }

  /** `m` maps each name of `names` to the position of its last occurrence. */
  ghost predicate Indexes(names: seq<string>, m: map<string, NodeId>) {
    && (forall k :: k in m <==> k in names)
    && (forall k :: k in m ==> m[k] < |names| && names[m[k]] == k)
    && (forall k, j :: k in m && m[k] < j < |names| ==> names[j] != k)
  }

  /** Recording one more name at the next position keeps the index a last-occurrence index. */
  lemma IndexesSnoc(init: seq<string>, x: string, m: map<string, NodeId>)
    requires Indexes(init, m)
    ensures Indexes(init + [x], m[x := |init|])
  {
    var names := init + [x];
    var r := m[x := |init|];
    forall k ensures k in r <==> k in names {
      if k in names && k != x {
        var i :| 0 <= i < |names| && names[i] == k;
        assert i < |init| && init[i] == k;
      }
    }
    forall k | k in r && k != x ensures r[k] < |names| && names[r[k]] == k {
      assert names[m[k]] == init[m[k]];
    }
    forall k, j | k in r && k != x && r[k] < j < |names| ensures names[j] != k {
      if j < |init| {
        assert names[j] == init[j];
      }
    }
  }

  /** The names that occur at least twice in the traversal. */
  function Duplicates(names: seq<string>): (d: set<string>)
    ensures forall k :: k in d <==> exists i, j :: 0 <= i < j < |names| && names[i] == k && names[j] == k
    decreases |names|
  {
    if names == [] then {}
    else
      var n := |names| - 1;
      var init := names[..n];
      var d := Duplicates(init);
      assert forall i :: 0 <= i < n ==> init[i] == names[i];
      var r := if names[n] in init then d + {names[n]} else d;
      assert forall k :: k in r <== (exists i, j :: 0 <= i < j < |names| && names[i] == k && names[j] == k) by {
        forall k, i, j | 0 <= i < j < |names| && names[i] == k && names[j] == k ensures k in r {
          if j < n {
            assert init[i] == k && init[j] == k;
          } else {
            assert init[i] == k;
          }
        }
      }
      r
  }

  /** Traversing one more node records it under its name. */
  lemma NameIndexSnoc(names: seq<string>, i: nat)
    requires i < |names|
    ensures NameIndex(names[..i + 1]) == NameIndex(names[..i])[names[i] := i]
  {
    assert names[..i + 1][..i] == names[..i];
  }

  /** Traversing one more node adds its name to the duplicates exactly when it was seen before. */
  lemma DuplicatesSnoc(names: seq<string>, i: nat)
    requires i < |names|
    ensures Duplicates(names[..i + 1]) ==
      if names[i] in names[..i] then Duplicates(names[..i]) + {names[i]} else Duplicates(names[..i])
  {
    assert names[..i + 1][..i] == names[..i];
  }

  /** A sequence that holds exactly the names of a set. */
  ghost predicate Lists(s: seq<string>, d: set<string>) {
    forall k :: k in s <==> k in d
  }

  /**
   * One more node: its name joins the recorded duplicates, in order,
   * exactly when the index already holds that name.
   */
  lemma DuplicatesStep(before: seq<string>, after: seq<string>, names: seq<string>, i: nat)
    requires i < |names|
    requires Sorted(before) && Lists(before, Duplicates(names[..i]))
    requires after == if names[i] in NameIndex(names[..i]) then Insert(before, names[i]) else before
    ensures Sorted(after) && Lists(after, Duplicates(names[..i + 1]))
  {
    DuplicatesSnoc(names, i);
  }

  /** `Transforms`: the name index and its duplicated names. */
  class Transforms {
    var transforms: map<string, NodeId>
    var duplications: seq<string>
    ghost const names: seq<string>

    ghost predicate Valid()
      reads this
    {
      && transforms == NameIndex(names)
      && Sorted(duplications)
      && Lists(duplications, Duplicates(names))
    }

    /** Walks the traversal once, recording each node and any name seen before. */
    constructor (names: seq<string>)
      ensures Valid() && this.names == names
    {
      this.names := names;
      transforms := map[];
      duplications := [];
      new;
      var i := 0;
      while i < |names|
        invariant 0 <= i <= |names|
        invariant transforms == NameIndex(names[..i])
        invariant Sorted(duplications) && Lists(duplications, Duplicates(names[..i]))
      {
        var name := names[i];
        NameIndexSnoc(names, i);
        ghost var before := duplications;
        if name in transforms {
          duplications := Insert(duplications, name);
        }
        DuplicatesStep(before, duplications, names, i);
        transforms := transforms[name := i];
        i := i + 1;
      }
      assert names[..i] == names;
    }
  }

  /**
   * The `(string)` cast of a token: null stays null, a string is itself, a
   * boolean is written `True` or `False`; an array or object cannot be cast.
   * The text of a number is not modelled, so a number fails the cast here.
   */
  function StringOf(tok: Json): (r: Result<Option<string>, Failure>)
    ensures tok.JNull? ==> r == Ok(None)
    ensures tok.JStr? ==> r == Ok(Some(tok.s))
    ensures tok.JBool? ==> r == Ok(Some(if tok.b then "True" else "False"))
    ensures r.Err? <==> tok.JNum? || tok.JArr? || tok.JObj?
  {
    match tok
    case JNull => Ok(None)
    case JStr(s) => Ok(Some(s))
    case JBool(b) => Ok(Some(if b then "True" else "False"))
    case _ => Err(InvalidCast)
  }

  /**
   * `Transforms.get`: the token cast to a string; a null string is no
   * node, any other is looked up and is no node when absent.
   */
  function Get(transforms: map<string, NodeId>, name: Json): (r: Result<Option<NodeId>, Failure>)
    ensures name.JNull? ==> r == Ok(None)
    ensures name.JStr? ==> r.Ok? && (r.value.Some? <==> name.s in transforms)
    ensures r.Err? <==> StringOf(name).Err?
    ensures r.Ok? ==> (r.value.Some? <==> StringOf(name).value.Some? && StringOf(name).value.value in transforms)
    ensures r.Ok? && r.value.Some? ==> r.value.value == transforms[StringOf(name).value.value]
  {
    match StringOf(name)
    case Err(e) => Err(e)
    case Ok(None) => Ok(None)
    case Ok(Some(s)) => Ok(if s in transforms then Some(transforms[s]) else None)
  }

  /**
   * Looking a traversed name up in the index built over that traversal finds
   * the last node with that name; a name not traversed finds nothing.
   */
  lemma GetFindsLastNode(names: seq<string>, k: string)
    ensures k in names ==> exists i :: (0 <= i < |names| && Get(NameIndex(names), JStr(k)) == Ok(Some(i))
                                       && names[i] == k && forall j :: i < j < |names| ==> names[j] != k)
    ensures k !in names ==> Get(NameIndex(names), JStr(k)) == Ok(None)
  {
    if k in names {
      var i := NameIndex(names)[k];
      assert Get(NameIndex(names), JStr(k)) == Ok(Some(i));
    }
  }

  /** `string.Join`. */
  function Join(sep: string, parts: seq<string>): (r: string)
    ensures parts == [] ==> r == []
    ensures parts != [] ==> parts[0] <= r
    ensures parts != [] ==> var last := parts[|parts| - 1]; |last| <= |r| && r[|r| - |last|..] == last
  {
    if parts == [] then []
    else if |parts| == 1 then parts[0]
    else
      var rest := Join(sep, parts[1..]);
      assert parts[1..][|parts| - 2] == parts[|parts| - 1];
      assert (parts[0] + sep + rest)[|parts[0] + sep + rest| - |parts[|parts| - 1]|..] == rest[|rest| - |parts[|parts| - 1]|..];
      parts[0] + sep + rest
  }

  /**
   * Names without line breaks joined by CR LF read back, line by line, as
   * those names, provided the last is not empty (a final empty line is
   * not returned by `ReadLine`).
   */
  lemma {:induction false} JoinLines(parts: seq<string>)
    requires parts != [] && parts[|parts| - 1] != []
    requires forall i :: 0 <= i < |parts| ==> Formatter.NoBreaks(parts[i])
    ensures Formatter.Lines(Join(Formatter.CRLF, parts)) == parts
  {
    if |parts| == 1 {
      Formatter.ReadLineLast(parts[0]);
    } else {
      var rest := parts[1..];
      assert rest[|rest| - 1] == parts[|parts| - 1];
      assert forall i :: 0 <= i < |rest| ==> rest[i] == parts[i + 1];
      JoinLines(rest);
      JoinCons(Formatter.CRLF, parts);
      LinesStep(parts[0], Join(Formatter.CRLF, rest), rest, parts);
    }
  }

  /** Joining two or more parts puts the first, the separator, then the others joined. */
  lemma JoinCons(sep: string, parts: seq<string>)
    requires |parts| >= 2
    ensures Join(sep, parts) == parts[0] + sep + Join(sep, parts[1..])
  {
  }

  /** A line without breaks, CR LF, then text whose lines are `ls`: the line, then `ls`. */
  lemma LinesStep(a: string, t: string, ls: seq<string>, all: seq<string>)
    requires Formatter.NoBreaks(a) && Formatter.Lines(t) == ls && all == [a] + ls
    ensures Formatter.Lines(a + Formatter.CRLF + t) == all
  {
    Formatter.ReadLineBefore(a, t);
  }

  const DuplicateTitle := "Same name hierarchies:"
  const DuplicateHeader := "Same name hierarchies:\r\n\r\n"

  /** `CollectHierarchies`'s message: the sorted duplicated names, one per line. */
  function DuplicateMessage(duplications: seq<string>): (r: string)
    requires duplications != []
    ensures DuplicateHeader <= r
  {
    DuplicateHeader + Join("\r\n", duplications)
  }

  /** The header is the title line followed by an empty line. */
  lemma DuplicateHeaderLines()
    ensures Formatter.NoBreaks(DuplicateTitle)
    ensures DuplicateHeader == DuplicateTitle + Formatter.CRLF + Formatter.CRLF
  {
  }

  /** A title line, an empty line, then text whose lines are `ls`. */
  lemma TitledLines(title: string, t: string, ls: seq<string>)
    requires Formatter.NoBreaks(title) && Formatter.Lines(t) == ls
    ensures Formatter.Lines(title + Formatter.CRLF + Formatter.CRLF + t) == [title, ""] + ls
  {
    var u := Formatter.CRLF + t;
    var more := [""] + ls;
    TitleBeforeEmpty(title, t, ls, u, more);
    Formatter.LinesRegroup(title + Formatter.CRLF, Formatter.CRLF, t, [title, ""] + ls);
  }

  /** `TitledLines` with the text after the first CR LF, and the lines it holds, given by name. */
  lemma TitleBeforeEmpty(title: string, t: string, ls: seq<string>, u: string, more: seq<string>)
    requires Formatter.NoBreaks(title) && Formatter.Lines(t) == ls
    requires u == Formatter.CRLF + t && more == [""] + ls
    ensures Formatter.Lines(title + Formatter.CRLF + u) == [title, ""] + ls
  {
    Formatter.EmptyLineFirst(t);
    ConsEmpty(title, ls, more);
    LinesStep(title, u, more, [title, ""] + ls);
  }

  lemma ConsEmpty(title: string, ls: seq<string>, more: seq<string>)
    requires more == [""] + ls
    ensures [title] + more == [title, ""] + ls
  {
  }

  /**
   * The message read line by line: the header, an empty line, then the
   * duplicated names in order, one per line.
   */
  lemma DuplicateMessageLines(duplications: seq<string>)
    requires duplications != [] && duplications[|duplications| - 1] != []
    requires forall i :: 0 <= i < |duplications| ==> Formatter.NoBreaks(duplications[i])
    ensures Formatter.Lines(DuplicateMessage(duplications)) == [DuplicateTitle, ""] + duplications
  {
    var j := Join(Formatter.CRLF, duplications);
    JoinLines(duplications);
    DuplicateHeaderLines();
    TitledLines(DuplicateTitle, j, duplications);
  }
}
