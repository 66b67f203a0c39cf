/** The `enrolled_courses` column: a course list flattened with JavaScript's
    `join(',')` on write and read back with `split(',')` followed by a filter
    that drops empty segments. There is no escaping, so a course code that
    contains a comma or is empty does not survive the round trip. */
module CourseList {
  import opened Basics

  /** `xs.join(',')` on an array of strings. */
  function Join(xs: seq<string>): string
    decreases |xs|
  {
    if |xs| == 0 then ""
    else if |xs| == 1 then xs[0]
    else xs[0] + "," + Join(xs[1..])
  }

  /** `s.split(',')`: the maximal comma-free segments of `s`, in order; the
      empty string splits into one empty segment. */
  function Split(s: string): (parts: seq<string>)
    ensures |parts| >= 1
    ensures forall i :: 0 <= i < |parts| ==> ',' !in parts[i]
    decreases |s|
  {
    if |s| == 0 then [""]
    else
      var rest := Split(s[1..]);
      if s[0] == ',' then [""] + rest
      else [[s[0]] + rest[0]] + rest[1..]
  }

  /** `.filter(s => s)`: keeps the non-empty strings, in order, each as
      often as it occurs. */
  function DropEmpty(xs: seq<string>): (ys: seq<string>)
    ensures |ys| <= |xs|
    ensures forall i :: 0 <= i < |ys| ==> ys[i] != "" && ys[i] in xs
    ensures forall i :: 0 <= i < |xs| && xs[i] != "" ==> xs[i] in ys
    decreases |xs|
  {
    if |xs| == 0 then []
    else
      var tail := DropEmpty(xs[1..]);
      assert forall i :: 1 <= i < |xs| ==> xs[i] == xs[1..][i - 1];
      if xs[0] == "" then tail else [xs[0]] + tail
  }

  /** The filter keeps each non-empty string exactly as often as it occurs
      and no copy of the empty string. */
  lemma {:induction false} DropEmptyCounts(xs: seq<string>)
    ensures multiset(DropEmpty(xs)) == multiset(xs)["" := 0]
    decreases |xs|
  {
    if |xs| > 0 {
      DropEmptyCounts(xs[1..]);
      assert xs == [xs[0]] + xs[1..];
    }
  }

  /** The filter works entry by entry: filtering a concatenation filters
      each part, so the kept entries stay in their original order. */
  lemma {:induction false} DropEmptyAppend(xs: seq<string>, zs: seq<string>)
    ensures DropEmpty(xs + zs) == DropEmpty(xs) + DropEmpty(zs)
    decreases |xs|
  {
    if |xs| > 0 {
      assert (xs + zs)[1..] == xs[1..] + zs;
      DropEmptyAppend(xs[1..], zs);
    } else {
      assert xs + zs == zs;
    }
  }

  /** A list that the comma encoding can carry: no empty and no comma-bearing entries. */
  predicate Encodable(xs: seq<string>) {
    forall i :: 0 <= i < |xs| ==> xs[i] != "" && ',' !in xs[i]
  }

  /** The write side of the update-user handler: an array is joined with
      commas, anything else (`None` here) is stored as the empty string. */
  function EncodeCourses(courses: Option<seq<string>>): (stored: string)
    ensures courses.None? ==> stored == ""
    ensures courses.Some? && |courses.value| >= 1 && Encodable(courses.value) ==>
              Split(stored) == courses.value
  {
    match courses
    case None => ""
    case Some(xs) =>
      if |xs| >= 1 && Encodable(xs) then SplitJoin(xs); Join(xs) else Join(xs)
  }

  /** The read side in formatUser: NULL and '' give the empty list; otherwise
      split on commas and drop the empty segments. */
  function DecodeCourses(stored: Option<string>): (courses: seq<string>)
    ensures stored == None || stored == Some("") ==> courses == []
    ensures Encodable(courses)
  {
    var s := if stored.Some? then stored.value else "";
    if s == "" then []
    else
      var parts := Split(s);
      var kept := DropEmpty(parts);
      assert forall i :: 0 <= i < |kept| ==> ',' !in kept[i] by {
        forall i | 0 <= i < |kept|
          ensures ',' !in kept[i]
        {
          var j :| 0 <= j < |parts| && parts[j] == kept[i];
        }
      }
      kept
  }

  lemma JoinEmptyOnlyForEmpty(xs: seq<string>)
    requires Encodable(xs)
    ensures Join(xs) == "" <==> xs == []
  {
    if |xs| > 1 {
      assert Join(xs)[0] == xs[0][0];
    }
  }

  /** Splitting a comma-free prefix followed by a comma peels off exactly that prefix. */
  lemma {:induction false} SplitComma(a: string, b: string)
    requires ',' !in a
    ensures Split(a + "," + b) == [a] + Split(b)
    decreases |a|
  {
    if |a| == 0 {
      assert a + "," + b == [','] + b;
      assert (a + "," + b)[1..] == b;
    } else {
      var s := a + "," + b;
      assert s[0] == a[0];
      assert s[1..] == a[1..] + "," + b;
      SplitComma(a[1..], b);
      assert [a[0]] + a[1..] == a;
    }
  }

  /** A comma-free string splits into itself. */
  lemma {:induction false} SplitNoComma(a: string)
    requires ',' !in a
    ensures Split(a) == [a]
    decreases |a|
  {
    if |a| > 0 {
      SplitNoComma(a[1..]);
      assert [a[0]] + a[1..] == a;
    }
  }

  /** `split` undoes `join` on a non-empty list of comma-free strings (empty entries allowed). */
  lemma {:induction false} SplitJoin(xs: seq<string>)
    requires |xs| >= 1
    requires forall i :: 0 <= i < |xs| ==> ',' !in xs[i]
    ensures Split(Join(xs)) == xs
    decreases |xs|
  {
    if |xs| == 1 {
      SplitNoComma(xs[0]);
    } else {
      SplitJoin(xs[1..]);
      SplitComma(xs[0], Join(xs[1..]));
      assert [xs[0]] + xs[1..] == xs;
    }
  }

  /** `join` undoes `split` on every string. */
  lemma {:induction false} JoinSplit(s: string)
    ensures Join(Split(s)) == s
    decreases |s|
  {
    if |s| > 0 {
      JoinSplit(s[1..]);
      var rest := Split(s[1..]);
      if s[0] == ',' {
        assert Split(s) == [""] + rest;
        if |rest| == 1 {
          assert Join(Split(s)) == "" + "," + rest[0];
        } else {
          assert ([""] + rest)[1..] == rest;
        }
        assert [s[0]] + s[1..] == s;
      } else {
        var parts := [[s[0]] + rest[0]] + rest[1..];
        assert Split(s) == parts;
        if |rest| == 1 {
          assert Join(parts) == [s[0]] + rest[0];
        } else {
          assert parts[1..] == rest[1..];
          assert Join(rest) == rest[0] + "," + Join(rest[1..]);
          assert Join(parts) == ([s[0]] + rest[0]) + "," + Join(rest[1..]);
        }
        assert [s[0]] + s[1..] == s;
      }
    }
  }

  /** Filtering a list that has no empty entries keeps it whole. */
  lemma {:induction false} DropEmptyKeeps(xs: seq<string>)
    requires forall i :: 0 <= i < |xs| ==> xs[i] != ""
    ensures DropEmpty(xs) == xs
    decreases |xs|
  {
    if |xs| > 0 {
      DropEmptyKeeps(xs[1..]);
      assert [xs[0]] + xs[1..] == xs;
    }
  }

  /** The update-user write followed by the formatUser read returns the list
      that was sent exactly when every entry is non-empty and comma-free. */
  lemma {:induction false} CoursesRoundTrip(xs: seq<string>)
    ensures DecodeCourses(Some(EncodeCourses(Some(xs)))) == xs <==> Encodable(xs)
  {
    if Encodable(xs) && xs != [] {
      SplitJoin(xs);
      DropEmptyKeeps(xs);
      JoinEmptyOnlyForEmpty(xs);
    }
  }

  /** On comma-free entries the write-then-read drops exactly the empty
      entries and keeps the rest, in order. */
  lemma {:induction false} CommaFreeRoundTrip(xs: seq<string>)
    requires forall i :: 0 <= i < |xs| ==> ',' !in xs[i]
    ensures DecodeCourses(Some(EncodeCourses(Some(xs)))) == DropEmpty(xs)
  {
    if xs != [] {
      SplitJoin(xs);
    }
  }

  /** A body that is not an array stores '' and reads back as the empty list. */
  lemma NonArrayReadsBackEmpty()
    ensures DecodeCourses(Some(EncodeCourses(None))) == []
  {
  }

  /** A comma inside an entry splits it in two on the way back. */
  lemma CommaSplitsEntry()
    ensures DecodeCourses(Some(EncodeCourses(Some(["CS,101"])))) == ["CS", "101"]
  {
    var stored := EncodeCourses(Some(["CS,101"]));
    assert stored == "CS" + "," + "101";
    SplitComma("CS", "101");
    SplitNoComma("101");
    DropEmptyKeeps(["CS", "101"]);
  }

  /** An empty entry disappears on the way back. */
  lemma EmptyEntryDropped()
    ensures DecodeCourses(Some(EncodeCourses(Some(["", "MATH"])))) == ["MATH"]
  {
    var stored := EncodeCourses(Some(["", "MATH"]));
    assert stored == "" + "," + "MATH";
    SplitComma("", "MATH");
    SplitNoComma("MATH");
    DropEmptyAppend([""], ["MATH"]);
    DropEmptyKeeps(["MATH"]);
  }
}
