/** The presence report of the image-processing service: which of a class's students
    appear in an attendance photo. Image downloads and face encoding/comparison are
    abstracted: each student carries whether a reference encoding was obtained, and
    the comparison of every detected face against every known encoding is given as a
    boolean matrix. */
module PresenceReport {
  import opened Entities

  /** A student of the roster: its id and whether its reference photo yielded a face encoding
      (false when it has no photo URL or no face was found in it). */
  datatype StudentImage = StudentImage(id: StudentId, encoded: bool)

  /** The known ids: the ids of the encoded students, in roster order. */
  function KnownIds(students: seq<StudentImage>): seq<StudentId>
  {
    if students == [] then []
    else
      var last := students[|students| - 1];
      KnownIds(students[..|students| - 1]) + (if last.encoded then [last.id] else [])
  }

  /** Collecting known ids keeps the roster's order: it distributes over concatenation. */
  lemma {:induction false} KnownIdsAppend(s: seq<StudentImage>, t: seq<StudentImage>)
    ensures KnownIds(s + t) == KnownIds(s) + KnownIds(t)
  {
    if t == [] {
      assert s + t == s;
    } else {
      var t' := t[..|t| - 1];
      assert (s + t)[..|s + t| - 1] == s + t';
      KnownIdsAppend(s, t');
    }
  }

  /** An id is known exactly when some encoded student of the roster has it. */
  lemma {:induction false} KnownIdsMembers(students: seq<StudentImage>, id: StudentId)
    ensures id in KnownIds(students) <==> exists j :: 0 <= j < |students| && students[j].encoded && students[j].id == id
  {
    if students != [] {
      var init := students[..|students| - 1];
      KnownIdsMembers(init, id);
      if id in KnownIds(init) {
        var j :| 0 <= j < |init| && init[j].encoded && init[j].id == id;
        assert students[j] == init[j];
      }
      if exists j :: 0 <= j < |students| && students[j].encoded && students[j].id == id {
        var j :| 0 <= j < |students| && students[j].encoded && students[j].id == id;
        if j < |init| {
          assert init[j] == students[j];
        }
      }
    }
  }

  /** The one known index a detected face is matched to: the first true entry of its
      comparison row, if any (the loop that stops at the first match). */
  function FirstMatch(row: seq<bool>): (r: Option<nat>)
    ensures r.Some? ==> r.value < |row| && row[r.value] && forall j :: 0 <= j < r.value ==> !row[j]
    ensures r.None? <==> forall j :: 0 <= j < |row| ==> !row[j]
  {
    if row == [] then None
    else if row[0] then Some(0)
    else match FirstMatch(row[1..])
      case None => None
      case Some(i) => Some(i + 1)
  }

  /** Every comparison row has one entry per known id. */
  ghost predicate WellShaped(known: seq<StudentId>, matches: seq<seq<bool>>)
  {
    forall f :: 0 <= f < |matches| ==> |matches[f]| == |known|
  }

  /** The ids that some detected face marks present. */
  ghost function Marked(known: seq<StudentId>, matches: seq<seq<bool>>): set<StudentId>
    requires WellShaped(known, matches)
  {
    if matches == [] then {}
    else
      var last := matches[|matches| - 1];
      Marked(known, matches[..|matches| - 1]) + (match FirstMatch(last) case None => {} case Some(i) => {known[i]})
  }

  /** An id is marked exactly when some face's first match is a known index holding that id. */
  lemma {:induction false} MarkedMembers(known: seq<StudentId>, matches: seq<seq<bool>>, id: StudentId)
    requires WellShaped(known, matches)
    ensures id in Marked(known, matches) <==>
            exists f :: 0 <= f < |matches| && FirstMatch(matches[f]).Some? && known[FirstMatch(matches[f]).value] == id
  {
    if matches != [] {
      var init := matches[..|matches| - 1];
      MarkedMembers(known, init, id);
      if exists f :: 0 <= f < |init| && FirstMatch(init[f]).Some? && known[FirstMatch(init[f]).value] == id {
        var f :| 0 <= f < |init| && FirstMatch(init[f]).Some? && known[FirstMatch(init[f]).value] == id;
        assert matches[f] == init[f];
      }
      if exists f :: 0 <= f < |matches| && FirstMatch(matches[f]).Some? && known[FirstMatch(matches[f]).value] == id {
        var f :| 0 <= f < |matches| && FirstMatch(matches[f]).Some? && known[FirstMatch(matches[f]).value] == id;
        if f < |init| {
          assert init[f] == matches[f];
        }
      }
    }
  }

  /** Only known ids are ever marked. */
  lemma {:induction false} MarkedAreKnown(known: seq<StudentId>, matches: seq<seq<bool>>)
    requires WellShaped(known, matches)
    ensures forall id :: id in Marked(known, matches) ==> id in known
  {
    if matches != [] {
      MarkedAreKnown(known, matches[..|matches| - 1]);
    }
  }

  /** One more detected face marks at most one more student (the inner loop stops at the first match). */
  lemma {:induction false} OneFaceMarksAtMostOne(known: seq<StudentId>, matches: seq<seq<bool>>, row: seq<bool>)
    requires WellShaped(known, matches) && |row| == |known|
    ensures WellShaped(known, matches + [row])
    ensures Marked(known, matches) <= Marked(known, matches + [row])
    ensures |Marked(known, matches + [row]) - Marked(known, matches)| <= 1
  {
    assert (matches + [row])[..|matches|] == matches;
    assert (matches + [row])[|matches|] == row;
  }

  /** No more students are marked than faces were detected. */
  lemma {:induction false} MarkedBound(known: seq<StudentId>, matches: seq<seq<bool>>)
    requires WellShaped(known, matches)
    ensures |Marked(known, matches)| <= |matches|
  {
    if matches != [] {
      MarkedBound(known, matches[..|matches| - 1]);
    }
  }

  /** The first loop: the known ids, collected in roster order. */
  method CollectKnownIds(students: seq<StudentImage>) returns (known: seq<StudentId>)
    ensures known == KnownIds(students)
  {
    known := [];
    var k := 0;
    while k < |students|
      invariant 0 <= k <= |students|
      invariant known == KnownIds(students[..k])
    {
      assert students[..k + 1][..k] == students[..k];
      if students[k].encoded {
        known := known + [students[k].id];
      }
      k := k + 1;
    }
    assert students[..|students|] == students;
  }

  /** The nested loops: each detected face marks its first matching known id present. */
  method MarkPresent(known: seq<StudentId>, matches: seq<seq<bool>>) returns (report: map<StudentId, bool>)
    requires WellShaped(known, matches)
    ensures report.Keys == Marked(known, matches)
    ensures forall id :: id in report ==> report[id]
  {
    report := map[];
    var f := 0;
    while f < |matches|
      invariant 0 <= f <= |matches|
      invariant report.Keys == Marked(known, matches[..f])
      invariant forall id :: id in report ==> report[id]
    {
      assert matches[..f + 1][..f] == matches[..f];
      var i := 0;
      while i < |known|
        invariant 0 <= i <= |known|
        invariant forall j :: 0 <= j < i ==> !matches[f][j]
        invariant report.Keys == Marked(known, matches[..f])
        invariant forall id :: id in report ==> report[id]
      {
        if matches[f][i] {
          report := report[known[i] := true];
          break;
        }
        i := i + 1;
      }
      assert report.Keys == Marked(known, matches[..f + 1]);
      f := f + 1;
    }
    assert matches[..|matches|] == matches;
  }

  /** The last loop: every known id not yet in the report is recorded absent. */
  method MarkAbsent(known: seq<StudentId>, present: map<StudentId, bool>) returns (report: map<StudentId, bool>)
    requires forall id :: id in present ==> id in known && present[id]
    ensures report.Keys == set j | 0 <= j < |known| :: known[j]
    ensures forall id :: id in report ==> (report[id] <==> id in present)
  {
    report := present;
    var i := 0;
    while i < |known|
      invariant 0 <= i <= |known|
      invariant report.Keys == present.Keys + set j | 0 <= j < i :: known[j]
      invariant forall id :: id in report ==> (report[id] <==> id in present)
    {
      if known[i] !in report {
        report := report[known[i] := false];
      }
      i := i + 1;
    }
  }

  /** generate_presence_report: every known id maps to whether some face was matched to it;
      students without an encoding are not reported. */
  method GeneratePresenceReport(students: seq<StudentImage>, matches: seq<seq<bool>>)
    returns (report: map<StudentId, bool>)
    requires WellShaped(KnownIds(students), matches)
    ensures forall id :: id in report <==> exists j :: 0 <= j < |students| && students[j].encoded && students[j].id == id
    ensures forall id :: id in report ==> (report[id] <==> id in Marked(KnownIds(students), matches))
    ensures forall id :: id in report ==>
              (report[id] <==> exists f :: 0 <= f < |matches| && FirstMatch(matches[f]).Some? &&
                                           KnownIds(students)[FirstMatch(matches[f]).value] == id)
    ensures |set id | id in report && report[id]| <= |matches|
    ensures matches == [] ==> forall id :: id in report ==> !report[id]
  {
    var known := CollectKnownIds(students);
    var marked := MarkPresent(known, matches);
    MarkedAreKnown(known, matches);
    report := MarkAbsent(known, marked);
    forall id ensures id in report <==> exists j :: 0 <= j < |students| && students[j].encoded && students[j].id == id {
      KnownIdsMembers(students, id);
    }
    forall id | id in report {
      MarkedMembers(known, matches, id);
    }
    assert (set id | id in report && report[id]) == marked.Keys;
    MarkedBound(known, matches);
  }
}
