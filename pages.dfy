/**
 * Page records and the line-based text form in which the registry store
 * `.siteinfo/pages.list` holds them.
 */
module Pages {
  import opened Paths

  /** One tracked page. Two records denote the same page iff their pagePath is equal. */
  datatype PageInfo = PageInfo(title: string, pagePath: Path, contentPath: Path, templatePath: Path)

  /** A field the store can hold on one line of its own: not blank, no line break. */
  predicate IsLine(s: string)
  {
    s != [] && '\n' !in s
  }

  predicate Writable(p: PageInfo)
  {
    IsLine(p.title) && IsLine(p.pagePath) && IsLine(p.contentPath) && IsLine(p.templatePath)
  }

  /** The lines written for one page: its four fields, then a blank separator line. */
  function Block(p: PageInfo): seq<string>
  {
    [p.title, p.pagePath, p.contentPath, p.templatePath, ""]
  }

  /** The store's lines for a sequence of pages, written in that order. */
  function Serialize(ps: seq<PageInfo>): (lines: seq<string>)
    ensures |lines| == 5 * |ps|
  {
    if ps == [] then [] else Block(ps[0]) + Serialize(ps[1..])
  }

  lemma {:induction false} SerializeAppend(ps: seq<PageInfo>, p: PageInfo)
    ensures Serialize(ps + [p]) == Serialize(ps) + Block(p)
    decreases |ps|
  {
    if ps != [] {
      assert (ps + [p])[1..] == ps[1..] + [p];
      SerializeAppend(ps[1..], p);
    }
  }

  /** The lines that are not blank, in order. */
  function NonBlank(lines: seq<string>): seq<string>
  {
    if lines == [] then []
    else (if lines[0] == "" then [] else [lines[0]]) + NonBlank(lines[1..])
  }

  lemma {:induction false} NonBlankAppend(a: seq<string>, b: seq<string>)
    ensures NonBlank(a + b) == NonBlank(a) + NonBlank(b)
    decreases |a|
  {
    if a == [] {
      assert a + b == b;
    } else {
      assert (a + b)[0] == a[0] && (a + b)[1..] == a[1..] + b;
      NonBlankAppend(a[1..], b);
    }
  }

  lemma {:induction false} NonBlankKeeps(fields: seq<string>)
    requires forall i :: 0 <= i < |fields| ==> fields[i] != ""
    ensures NonBlank(fields) == fields
    decreases |fields|
  {
    if fields != [] {
      NonBlankKeeps(fields[1..]);
    }
  }

  /**
   * Groups fields four at a time into records; a trailing group of fewer
   * than four fields is not a record and ends the reading.
   */
  function Records(fields: seq<string>): (ps: seq<PageInfo>)
    ensures |ps| == |fields| / 4
    decreases |fields|
  {
    if |fields| < 4 then []
    else [PageInfo(fields[0], fields[1], fields[2], fields[3])] + Records(fields[4..])
  }

  /** The records read back from the store's lines. */
  function Parse(lines: seq<string>): (ps: seq<PageInfo>)
    ensures |ps| == |NonBlank(lines)| / 4
  {
    Records(NonBlank(lines))
  }

  /** Reading back what was written gives the same records, in the same order. */
  lemma {:induction false} ParseSerialize(ps: seq<PageInfo>)
    requires forall i :: 0 <= i < |ps| ==> Writable(ps[i])
    ensures Parse(Serialize(ps)) == ps
    decreases |ps|
  {
    if ps != [] {
      var p := ps[0];
      var fields := [p.title, p.pagePath, p.contentPath, p.templatePath];
      assert Writable(ps[0]);
      calc {
        NonBlank(Serialize(ps));
        { NonBlankAppend(Block(p), Serialize(ps[1..])); }
        NonBlank(Block(p)) + NonBlank(Serialize(ps[1..]));
        { assert Block(p) == fields + [""];
          NonBlankAppend(fields, [""]);
          NonBlankKeeps(fields); }
        fields + NonBlank(Serialize(ps[1..]));
      }
      var tail := NonBlank(Serialize(ps[1..]));
      assert (fields + tail)[4..] == tail;
      ParseSerialize(ps[1..]);
      assert Records(fields + tail) == [p] + Records(tail);
      assert ps == [p] + ps[1..];
    }
  }
}
