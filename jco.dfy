/**
 * The news-page scraper, `JornalDaCidadeOnlineHTMLParser`: for every start
 * tag it appends, in document order, the value of the tag's `title`
 * attribute when the tag carries exactly one attribute of that name. The
 * caller drops the first value collected. The tokeniser is not modelled:
 * the input is the sequence of start tags it would report, each with its
 * attribute list; a value-less attribute (`<a title>`) has value None.
 */
module Jco {
  import opened Wrappers

  datatype Attr = Attr(name: string, value: Option<string>)

  datatype Tag = Tag(name: string, attrs: seq<Attr>)

  predicate IsTitle(a: Attr) {
    a.name == "title"
  }

  /** `[attr[1] for attr in attrs if attr[0] == "title"]`. */
  function TitleValues(attrs: seq<Attr>): seq<Option<string>>
  {
    if attrs == [] then []
    else (if IsTitle(attrs[0]) then [attrs[0].value] else []) + TitleValues(attrs[1..])
  }

  /** What one start tag adds to the list. */
  function TitleOf(attrs: seq<Attr>): seq<Option<string>>
  {
    var vs := TitleValues(attrs);
    if |vs| == 1 then [vs[0]] else []
  }

  /** What a sequence of start tags adds to the list. */
  function Titles(tags: seq<Tag>): seq<Option<string>>
  {
    if tags == [] then [] else TitleOf(tags[0].attrs) + Titles(tags[1..])
  }

  /** `titles[1:]`: every collected value but the first. */
  function Candidates(tags: seq<Tag>): seq<Option<string>>
  {
    var ts := Titles(tags);
    if ts == [] then [] else ts[1..]
  }

  /** A tag with no `title` attribute yields no value. */
  lemma {:induction false} NoTitleValues(attrs: seq<Attr>)
    requires forall j :: 0 <= j < |attrs| ==> !IsTitle(attrs[j])
    ensures TitleValues(attrs) == []
  {
    if attrs != [] {
      NoTitleValues(attrs[1..]);
    }
  }

  /** The comprehension keeps the `title` values and nothing else, in order:
      given any `title` attribute at position `k`, there is exactly one value
      iff no other attribute is named `title`, and then it is the value at `k`. */
  lemma {:induction false} SingleTitle(attrs: seq<Attr>, k: nat)
    requires k < |attrs| && IsTitle(attrs[k])
    ensures |TitleValues(attrs)| == 1 <==>
      forall j :: 0 <= j < |attrs| && j != k ==> !IsTitle(attrs[j])
    ensures |TitleValues(attrs)| == 1 ==> TitleValues(attrs)[0] == attrs[k].value
  {
    var rest := attrs[1..];
    if k == 0 {
      if forall j :: 0 <= j < |rest| ==> !IsTitle(rest[j]) {
        NoTitleValues(rest);
      } else {
        var j :| 0 <= j < |rest| && IsTitle(rest[j]);
        TitleValuesNonEmpty(rest, j);
      }
    } else {
      SingleTitle(rest, k - 1);
      if IsTitle(attrs[0]) {
        TitleValuesNonEmpty(rest, k - 1);
      }
    }
  }

  /** A `title` attribute anywhere contributes a value. */
  lemma {:induction false} TitleValuesNonEmpty(attrs: seq<Attr>, k: nat)
    requires k < |attrs| && IsTitle(attrs[k])
    ensures |TitleValues(attrs)| > 0
  {
    if k > 0 && !IsTitle(attrs[0]) {
      TitleValuesNonEmpty(attrs[1..], k - 1);
    }
  }

  /** Tags are read in document order: the titles of a concatenation are the
      concatenation of the titles. */
  lemma {:induction false} TitlesAppend(a: seq<Tag>, b: seq<Tag>)
    ensures Titles(a + b) == Titles(a) + Titles(b)
  {
    if a != [] {
      assert (a + b)[1..] == a[1..] + b;
      TitlesAppend(a[1..], b);
    } else {
      assert a + b == b;
    }
  }

  /** A value is collected iff some tag carries it as its single `title`. */
  lemma {:induction false} TitlesMembership(tags: seq<Tag>, v: Option<string>)
    ensures v in Titles(tags) <==> exists i :: 0 <= i < |tags| && TitleOf(tags[i].attrs) == [v]
  {
    if tags != [] {
      TitlesMembership(tags[1..], v);
      if v in Titles(tags[1..]) {
        var i :| 0 <= i < |tags| - 1 && TitleOf(tags[1..][i].attrs) == [v];
        assert TitleOf(tags[i + 1].attrs) == [v];
      }
      if exists i :: 0 <= i < |tags| && TitleOf(tags[i].attrs) == [v] {
        var i :| 0 <= i < |tags| && TitleOf(tags[i].attrs) == [v];
        if i > 0 {
          assert TitleOf(tags[1..][i - 1].attrs) == [v];
        }
      }
    }
  }

  /** `JornalDaCidadeOnlineHTMLParser`: the list of collected titles. */
  class Parser {
    var titles: seq<Option<string>>

    constructor ()
      ensures titles == []
    {
      titles := [];
    }

    /** `handle_starttag`. */
    method HandleStartTag(tag: string, attrs: seq<Attr>)
      modifies this
      ensures titles == old(titles) + TitleOf(attrs)
    {
      var values := TitleValues(attrs);
      if |values| == 1 {
        titles := titles + [values[0]];
      }
    }

    /** `feed`, reduced to the start tags it reports to `handle_starttag`. */
    method Feed(tags: seq<Tag>)
      modifies this
      ensures titles == old(titles) + Titles(tags)
    {
      for i := 0 to |tags|
        invariant titles == old(titles) + Titles(tags[..i])
      {
        HandleStartTag(tags[i].name, tags[i].attrs);
        TitlesAppend(tags[..i], [tags[i]]);
        assert tags[..i + 1] == tags[..i] + [tags[i]];
      }
      assert tags[..|tags|] == tags;
    }
  }

  /** `get_news_from_jornal_cidade_online` after the download: a fresh parser
      fed the page's start tags, returning `titles[1:]`. */
  method NewsCandidates(tags: seq<Tag>) returns (candidates: seq<Option<string>>)
    ensures |Titles(tags)| == 0 ==> candidates == []
    ensures |Titles(tags)| > 0 ==> |candidates| == |Titles(tags)| - 1
    ensures forall k :: 0 <= k < |candidates| ==> candidates[k] == Titles(tags)[k + 1]
    ensures candidates == Candidates(tags)
  {
    var parser := new Parser();
    parser.Feed(tags);
    candidates := if |parser.titles| == 0 then [] else parser.titles[1..];
  }
}
