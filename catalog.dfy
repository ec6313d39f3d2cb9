/** Courses and the course-file loader: the record parser and the line-by-line load. */
module Catalog {
  import opened Maybe
  import opened Text

  /** A course as the engine sees it through its getters: number, name, kdam (prerequisite)
      list, maximum number of students and the roster of registered students. The roster is a
      multiset: a list of usernames whose order the engine never observes. */
  datatype Course = Course(num: int, name: string, kdams: seq<int>, maxStudents: int, roster: multiset<string>)
  {
    /** `getRegisteredStudents().size()` */
    function Size(): nat {
      |roster|
    }

    /** `registerStudent(u)`: one more occurrence of `u` in the roster, even when `u` is
        already on it; nothing else about the course changes. */
    function WithStudent(u: string): (r: Course)
      ensures r.num == num && r.name == name && r.kdams == kdams && r.maxStudents == maxStudents
      ensures r.roster[u] == roster[u] + 1
      ensures forall v :: v != u ==> r.roster[v] == roster[v]
      ensures r.Size() == Size() + 1
    {
      this.(roster := roster + multiset{u})
    }

    /** `unregisterStudent(u)`: one occurrence of `u` fewer in the roster, and no change when
        `u` is not on it; nothing else about the course changes. */
    function WithoutStudent(u: string): (r: Course)
      ensures r.num == num && r.name == name && r.kdams == kdams && r.maxStudents == maxStudents
      ensures u in roster ==> r.roster[u] == roster[u] - 1 && r.Size() == Size() - 1
      ensures u !in roster ==> r == this
      ensures forall v :: v != u ==> r.roster[v] == roster[v]
    {
      this.(roster := roster - multiset{u})
    }
  }

  /** Every field parsed with `Integer.parseInt`, failing as a whole when one field fails. */
  function ParseInts(fields: seq<string>): (r: Option<seq<int>>)
    ensures r.Some? <==> forall k :: 0 <= k < |fields| ==> ParseInt(fields[k]).Some?
    ensures r.Some? ==> |r.value| == |fields|
    ensures r.Some? ==> forall k :: 0 <= k < |fields| ==> ParseInt(fields[k]) == Some(r.value[k])
    decreases |fields|
  {
    if fields == [] then Some([])
    else
      match (ParseInt(fields[0]), ParseInts(fields[1..]))
      case (Some(v), Some(vs)) =>
        assert forall k :: 1 <= k < |fields| ==> fields[k] == fields[1..][k - 1];
        Some([v] + vs)
      case (None, _) => None
      case (_, None) =>
        assert forall k :: 0 <= k < |fields| - 1 ==> fields[1..][k] == fields[k + 1];
        None
  }

  /** The kdam field: the literal `[]` is the empty list; any other field loses its first and
      last characters, whatever they are, and the rest is split on commas and parsed. A field
      shorter than two characters makes `substring` throw. */
  function ParseKdams(field: string): Option<seq<int>> {
    if field == "[]" then Some([])
    else if |field| < 2 then None
    else ParseInts(Split(field[1..|field| - 1], ','))
  }

  /** The first and last characters of a kdam field other than `[]` are never looked at: any
      field of three or more characters reads as the same field between square brackets. */
  lemma ParseKdamsIgnoresBrackets(field: string)
    requires |field| >= 3
    ensures ParseKdams(field) == ParseKdams("[" + field[1..|field| - 1] + "]")
  {
    var bracketed := "[" + field[1..|field| - 1] + "]";
    assert |bracketed| == |field| && bracketed != "[]";
    assert bracketed[1..|bracketed| - 1] == field[1..|field| - 1];
  }

  /** Two fields that show it: `(5)` reads as the list `[5]`, and in `[,]` both pieces are empty
      and `split` drops trailing empty pieces, so it reads as the empty list. */
  lemma ParseKdamsWitnesses()
    ensures ParseKdams("(5)") == Some([5])
    ensures ParseKdams("[,]") == Some([])
  {
    assert "(5)"[1..2] == "5";
    assert Split("5", ',') == ["5"];
    assert DigitsValue("5") == 5;
    assert ParseInt("5") == Some(5);
    var r := ParseInts(["5"]);
    assert ["5"][0] == "5";
    assert r.Some? && |r.value| == 1 && r.value[0] == 5;
    assert r.value == [5];
    var inner := "[,]"[1..2];
    assert inner == ",";
    assert IndexOf(inner, ',') == 0;
    assert Pieces(inner, ',') == [""] + Pieces("", ',');
    assert Pieces(inner, ',') == ["", ""];
    assert DropTrailingEmpty(["", ""]) == DropTrailingEmpty([""]);
    assert DropTrailingEmpty([""]) == DropTrailingEmpty([]);
    assert Split(inner, ',') == [];
  }

  /** One line of the course file, `num|name|kdams|max`, parsed into a course with an empty
      roster; `None` wherever the Java code throws (a missing field, a bad number). */
  function ParseRecord(line: string): (r: Option<Course>)
    ensures r.Some? ==> r.value.roster == multiset{}
    ensures r.Some? ==> IsInt32(r.value.num) && IsInt32(r.value.maxStudents)
  {
    var fields := Split(line, '|');
    if |fields| < 4 then None
    else
      match (ParseInt(fields[0]), ParseKdams(fields[2]), ParseInt(fields[3]))
      case (Some(num), Some(kdams), Some(max)) => Some(Course(num, fields[1], kdams, max, multiset{}))
      case _ => None
  }

  /** What a load returns: whether every line parsed, and the catalog afterwards. */
  datatype LoadResult = LoadResult(ok: bool, courses: map<int, Course>)

  /** The loop of `initialize`: each line is parsed and put under its number, replacing any
      course already there; the first line that does not parse stops the load with `false`,
      keeping what the earlier lines put. */
  function Load(courses: map<int, Course>, lines: seq<string>): LoadResult {
    LoadWith(ParseRecord, courses, lines)
  }

  /** The same loop for any record parser: what the loop does with the lines does not depend
      on how a single line is parsed, so its properties are stated once for every parser. */
  function LoadWith(parse: string -> Option<Course>, courses: map<int, Course>, lines: seq<string>): LoadResult
    decreases |lines|
  {
    if lines == [] then LoadResult(true, courses)
    else
      match parse(lines[0])
      case None => LoadResult(false, courses)
      case Some(c) => LoadWith(parse, courses[c.num := c], lines[1..])
  }

  /** The load reports success exactly when every line parses. */
  lemma {:induction false} LoadOkIffAllParse(parse: string -> Option<Course>, courses: map<int, Course>, lines: seq<string>)
    ensures LoadWith(parse, courses, lines).ok <==> forall k :: 0 <= k < |lines| ==> parse(lines[k]).Some?
    decreases |lines|
  {
    if lines != [] {
      var r := parse(lines[0]);
      if r.Some? {
        var c := r.value;
        LoadOkIffAllParse(parse, courses[c.num := c], lines[1..]);
        assert forall k :: 1 <= k < |lines| ==> lines[k] == lines[1..][k - 1];
        assert forall k :: 0 <= k < |lines| - 1 ==> lines[1..][k] == lines[k + 1];
      }
    }
  }

  /** A load that meets a bad line at position `k` reports failure but keeps everything the
      lines before `k` put: the load is not all-or-nothing. */
  lemma LoadStopsAtFirstBadLine(parse: string -> Option<Course>, courses: map<int, Course>, lines: seq<string>, k: nat)
    requires k < |lines| && parse(lines[k]).None?
    requires forall j :: 0 <= j < k ==> parse(lines[j]).Some?
    ensures LoadWith(parse, courses, lines[..k]).ok
    ensures LoadWith(parse, courses, lines) == LoadResult(false, LoadWith(parse, courses, lines[..k]).courses)
  {
    var prefix := lines[..k];
    forall j | 0 <= j < |prefix| ensures parse(prefix[j]).Some? {
      assert prefix[j] == lines[j];
    }
    LoadOkIffAllParse(parse, courses, prefix);
    assert lines == prefix + lines[k..];
    LoadConcat(parse, courses, prefix, lines[k..]);
    assert lines[k..][0] == lines[k];
  }

  /** A load that succeeds on `pre` goes on with `post` from the catalog `pre` left. */
  lemma {:induction false} LoadConcat(parse: string -> Option<Course>, courses: map<int, Course>, pre: seq<string>, post: seq<string>)
    requires LoadWith(parse, courses, pre).ok
    ensures LoadWith(parse, courses, pre + post) == LoadWith(parse, LoadWith(parse, courses, pre).courses, post)
    decreases |pre|
  {
    if pre == [] {
      assert pre + post == post;
    } else {
      var c := parse(pre[0]).value;
      assert (pre + post)[0] == pre[0] && (pre + post)[1..] == pre[1..] + post;
      LoadConcat(parse, courses[c.num := c], pre[1..], post);
    }
  }

  /** A record read after the others is put over whatever an earlier record with the same
      number put, and leaves every other number alone. */
  lemma LoadAppend(parse: string -> Option<Course>, courses: map<int, Course>, lines: seq<string>, line: string)
    requires LoadWith(parse, courses, lines).ok && parse(line).Some?
    ensures var c := parse(line).value;
      LoadWith(parse, courses, lines + [line]) == LoadResult(true, LoadWith(parse, courses, lines).courses[c.num := c])
  {
    LoadConcat(parse, courses, lines, [line]);
    assert [line][1..] == [];
  }

  /** The record format written out, the inverse of `ParseRecord`. */
  function FormatRecord(c: Course): string {
    IntToString(c.num) + "|" + c.name + "|" + FormatKdams(c.kdams) + "|" + IntToString(c.maxStudents)
  }

  function FormatKdams(kdams: seq<int>): string {
    if kdams == [] then "[]" else "[" + Join(FormatInts(kdams), ',') + "]"
  }

  function FormatInts(xs: seq<int>): (r: seq<string>)
    ensures |r| == |xs| && forall k :: 0 <= k < |xs| ==> r[k] == IntToString(xs[k])
  {
    seq(|xs|, k requires 0 <= k < |xs| => IntToString(xs[k]))
  }

  /** Every course whose numbers fit an `int` and whose name has no `|` survives being written
      as a record and read back; in particular `[]` reads as the empty kdam list. */
  lemma ParseRecordOfFormat(c: Course)
    requires IsInt32(c.num) && IsInt32(c.maxStudents)
    requires forall k :: 0 <= k < |c.kdams| ==> IsInt32(c.kdams[k])
    requires '|' !in c.name && c.roster == multiset{}
    ensures ParseRecord(FormatRecord(c)) == Some(c)
  {
    SplitOfFormat(c);
    ParseKdamsOfFormat(c.kdams);
    ParseIntOfIntToString(c.num);
    ParseIntOfIntToString(c.maxStudents);
  }

  /** The written record splits back into its four fields. */
  lemma SplitOfFormat(c: Course)
    requires '|' !in c.name
    ensures Split(FormatRecord(c), '|') == [IntToString(c.num), c.name, FormatKdams(c.kdams), IntToString(c.maxStudents)]
  {
    var kd := FormatKdams(c.kdams);
    IntToStringShape(c.num);
    IntToStringShape(c.maxStudents);
    var fields := [IntToString(c.num), c.name, kd, IntToString(c.maxStudents)];
    JoinFour(fields, '|');
    assert '|' !in kd by {
      if c.kdams != [] {
        FormatIntsHasNo(c.kdams, '|');
        JoinHasNo(FormatInts(c.kdams), ',', '|');
      }
    }
    SplitOfJoin(fields, '|');
  }

  lemma JoinFour(xs: seq<string>, d: char)
    requires |xs| == 4
    ensures Join(xs, d) == xs[0] + [d] + xs[1] + [d] + xs[2] + [d] + xs[3]
  {
    assert xs[1..][1..][1..] == [xs[3]];
    assert Join(xs[1..][1..], d) == xs[2] + [d] + xs[3];
    assert Join(xs[1..], d) == xs[1] + [d] + (xs[2] + [d] + xs[3]);
  }

  lemma ParseKdamsOfFormat(kdams: seq<int>)
    requires forall k :: 0 <= k < |kdams| ==> IsInt32(kdams[k])
    ensures ParseKdams(FormatKdams(kdams)) == Some(kdams)
  {
    if kdams != [] {
      var strs := FormatInts(kdams);
      KdamsFieldShape(kdams);
      FormatIntsHasNo(kdams, ',');
      IntToStringShape(kdams[|kdams| - 1]);
      SplitOfJoin(strs, ',');
      ParseIntsOfFormat(kdams);
    }
  }

  /** A non-empty kdam list is written as its numbers between brackets. */
  lemma KdamsFieldShape(kdams: seq<int>)
    requires kdams != []
    ensures var field := FormatKdams(kdams);
      && field != "[]" && |field| >= 2
      && field[1..|field| - 1] == Join(FormatInts(kdams), ',')
  {
    var strs := FormatInts(kdams);
    var field := FormatKdams(kdams);
    assert field == "[" + Join(strs, ',') + "]";
    IntToStringShape(kdams[0]);
    JoinStartsWithFirst(strs, ',');
    assert field[1] == Join(strs, ',')[0] == IntToString(kdams[0])[0];
  }

  /** Numbers written one by one parse back one by one. */
  lemma ParseIntsOfFormat(xs: seq<int>)
    requires forall k :: 0 <= k < |xs| ==> IsInt32(xs[k])
    ensures ParseInts(FormatInts(xs)) == Some(xs)
  {
    var strs := FormatInts(xs);
    forall k | 0 <= k < |xs| ensures ParseInt(strs[k]) == Some(xs[k]) {
      ParseIntOfIntToString(xs[k]);
    }
    var r := ParseInts(strs);
    assert r.Some? && |r.value| == |xs|;
    assert forall k :: 0 <= k < |xs| ==> r.value[k] == xs[k];
    assert r.value == xs;
  }

  lemma FormatIntsHasNo(xs: seq<int>, d: char)
    requires d == ',' || d == '|'
    ensures forall k :: 0 <= k < |xs| ==> d !in FormatInts(xs)[k]
  {
    forall k | 0 <= k < |xs| ensures d !in FormatInts(xs)[k] {
      IntToStringShape(xs[k]);
    }
  }

  lemma {:induction false} JoinHasNo(xs: seq<string>, d: char, e: char)
    requires |xs| >= 1 && d != e
    requires forall k :: 0 <= k < |xs| ==> e !in xs[k]
    ensures e !in Join(xs, d)
    decreases |xs|
  {
    if |xs| > 1 {
      JoinHasNo(xs[1..], d, e);
    }
  }

  lemma {:induction false} JoinStartsWithFirst(xs: seq<string>, d: char)
    requires |xs| >= 1
    ensures Join(xs, d)[..|xs[0]|] == xs[0]
  {
  }
}
