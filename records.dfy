/** The course record, the value constructor that builds one, and the text
    that the listing operation renders for a sequence of records. */
module Records {

  datatype Option<T> = None | Some(value: T)

  /** One course entry. The third field is named "prerequisite", but initS,
      insert and search store a decimal Unix timestamp there; readCSVFile
      copies the file's third column as it is. */
  datatype Course = Course(cid: string, cname: string, cprereq: string)

  /** initS: None stands for the nil result. `stamp` is the decimal Unix time
      the source reads from the clock. The name and the prerequisite must be
      non-empty; the identifier may be empty; the prerequisite is checked and
      then dropped in favour of the timestamp. */
  function InitS(i: string, n: string, p: string, stamp: string): (r: Option<Course>)
    ensures r.None? <==> (n == "" || p == "")
    ensures r.Some? ==> r.value.cid == i && r.value.cname == n && r.value.cprereq == stamp
  {
    if p == "" || n == "" then None else Some(Course(i, n, stamp))
  }

  /** Which non-empty prerequisite the caller supplies makes no difference. */
  lemma InitSDiscardsPrereq(i: string, n: string, p1: string, p2: string, stamp: string)
    requires p1 != "" && p2 != ""
    ensures InitS(i, n, p1, stamp) == InitS(i, n, p2, stamp)
    ensures n != "" ==> InitS(i, n, p1, stamp).Some?
  {
  }

  /** The one line `list` emits for a record. */
  function Line(c: Course): string
  {
    c.cid + " " + c.cname + " " + c.cprereq + "\n"
  }

  /** The text of a sequence of lines, in order. */
  function Join(ls: seq<string>): string
  {
    if ls == [] then "" else Join(ls[..|ls| - 1]) + ls[|ls| - 1]
  }

  /** One line per record, in order. */
  function Lines(d: seq<Course>): seq<string>
  {
    seq(|d|, i requires 0 <= i < |d| => Line(d[i]))
  }

  /** The text `list` returns: the lines of all records, in order. */
  function Render(d: seq<Course>): string
  {
    Join(Lines(d))
  }

  lemma {:induction false} JoinAppend(a: seq<string>, b: seq<string>)
    ensures Join(a + b) == Join(a) + Join(b)
    decreases |b|
  {
    if b == [] {
      assert a + b == a;
    } else {
      var n := |b| - 1;
      assert (a + b)[..|a + b| - 1] == a + b[..n];
      JoinAppend(a, b[..n]);
    }
  }

  /** Rendering distributes over concatenation of record sequences. */
  lemma RenderAppend(a: seq<Course>, b: seq<Course>)
    ensures Render(a + b) == Render(a) + Render(b)
  {
    assert Lines(a + b) == Lines(a) + Lines(b);
    JoinAppend(Lines(a), Lines(b));
  }

  /** A single record renders as its own line. */
  lemma RenderOne(c: Course)
    ensures Render([c]) == Line(c)
  {
    var l := Line(c);
    assert Lines([c]) == [l];
    assert [l][..0] == [];
    assert Join([l]) == "" + l;
    assert "" + l == l;
  }

  /** The line of record i follows the lines of the records before it, and
      the lines of the records after it follow it. */
  lemma RenderAt(d: seq<Course>, i: nat)
    requires i < |d|
    ensures Render(d[..i + 1]) == Render(d[..i]) + Line(d[i])
    ensures Render(d) == Render(d[..i + 1]) + Render(d[i + 1..])
  {
    var upto, post := d[..i + 1], d[i + 1..];
    RenderAppend(d[..i], [d[i]]);
    RenderOne(d[i]);
    assert d[..i] + [d[i]] == upto;
    assert d == upto + post;
    RenderAppend(upto, post);
  }
}
