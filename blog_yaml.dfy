/** The image script's reader for the blog's YAML file. It does not parse
    YAML: it walks the lines once, starting a new entry at every line that
    begins with `- title:` and filling in the open entry's date and image
    from the lines that follow it. */
module BlogYaml {
  import opened Wrappers
  import opened Strings

  /** One entry as the reader collects it; a field the entry has no line
      for is `None`. */
  datatype BlogEntry = BlogEntry(title: string, date: Option<string>, image: Option<string>)

  /** A line that opens an entry: `- title:` at the very start of the line. */
  predicate IsTitleLine(line: string)
  {
    StartsWith(line, "- title:")
  }

  /** A date line: `date:` after any indentation. */
  predicate IsDateLine(line: string)
  {
    StartsWith(Trim(line), "date:")
  }

  /** An image line: `image:` after any indentation, and not a comment. */
  predicate IsImageLine(line: string)
  {
    StartsWith(Trim(line), "image:") && !StartsWith(Trim(line), "#")
  }

  /** The comment test on image lines never decides anything: a line that
      starts with `image:` does not start with `#`. */
  lemma CommentTestRedundant(line: string)
    ensures IsImageLine(line) <==> StartsWith(Trim(line), "image:")
  {
    if StartsWith(Trim(line), "image:") {
      assert Trim(line)[0] == 'i';
    }
  }

  /** Every line the reader takes a value from holds a colon. */
  lemma ValueLinesHaveColon(line: string)
    ensures IsTitleLine(line) || IsDateLine(line) || IsImageLine(line) ==> ':' in line
  {
    if IsTitleLine(line) {
      assert line[7] == ':';
    } else if IsDateLine(line) || IsImageLine(line) {
      var k := TrimShape(line);
      var t := Trim(line);
      var c := if IsDateLine(line) then 4 else 5;
      assert t[c] == ':' && line[k + c] == t[c];
    }
  }

  /** `line.split(':', 1)[1].strip()`: the text after the first colon,
      without surrounding white space. */
  function ValueOf(line: string): string
    requires ':' in line
  {
    Trim(line[IndexOf(line, ':') + 1..])
  }

  /** The open entry after a line that does not start a new entry: a date
      line or an image line sets that field of the open entry, replacing an
      earlier value; any other line, or a line before the first title,
      changes nothing. */
  function Absorb(current: Option<BlogEntry>, line: string): Option<BlogEntry>
    requires !IsTitleLine(line)
  {
    ValueLinesHaveColon(line);
    if IsDateLine(line) && current.Some? then Some(current.value.(date := Some(ValueOf(line))))
    else if IsImageLine(line) && current.Some? then Some(current.value.(image := Some(ValueOf(line))))
    else current
  }

  /** The entry the reader is holding, as the list of entries it adds. */
  function Pending(current: Option<BlogEntry>): seq<BlogEntry>
  {
    if current.Some? then [current.value] else []
  }

  /** The entries the reader emits from `lines` on, holding `current`. */
  function EntriesFrom(lines: seq<string>, current: Option<BlogEntry>): seq<BlogEntry>
    decreases |lines|
  {
    if |lines| == 0 then Pending(current)
    else if IsTitleLine(lines[0]) then
      ValueLinesHaveColon(lines[0]);
      Pending(current) + EntriesFrom(lines[1..], Some(BlogEntry(ValueOf(lines[0]), None, None)))
    else EntriesFrom(lines[1..], Absorb(current, lines[0]))
  }

  /** `parse_blog_yaml`, as a function of the file's lines. */
  function ParseBlogLines(lines: seq<string>): seq<BlogEntry>
  {
    EntriesFrom(lines, None)
  }

  /** `parse_blog_yaml`: one pass over the lines of the file. */
  method ParseBlogYaml(lines: seq<string>) returns (entries: seq<BlogEntry>)
    ensures entries == ParseBlogLines(lines)
  {
    entries := [];
    var current: Option<BlogEntry> := None;
    for i := 0 to |lines|
      invariant entries + EntriesFrom(lines[i..], current) == ParseBlogLines(lines)
    {
      var line := lines[i];
      assert lines[i..][1..] == lines[i + 1..];
      ValueLinesHaveColon(line);
      if IsTitleLine(line) {
        if current.Some? {
          entries := entries + [current.value];
        }
        current := Some(BlogEntry(ValueOf(line), None, None));
      } else if IsDateLine(line) && current.Some? {
        current := Some(current.value.(date := Some(ValueOf(line))));
      } else if IsImageLine(line) && current.Some? {
        current := Some(current.value.(image := Some(ValueOf(line))));
      }
    }
    if current.Some? {
      entries := entries + [current.value];
    }
  }

  // ------------------------------------------------------ what the reader gives

  /** The values of the title lines, in file order. */
  function TitleValues(lines: seq<string>): seq<string>
    decreases |lines|
  {
    if |lines| == 0 then []
    else if IsTitleLine(lines[0]) then
      ValueLinesHaveColon(lines[0]);
      [ValueOf(lines[0])] + TitleValues(lines[1..])
    else TitleValues(lines[1..])
  }

  function Titles(entries: seq<BlogEntry>): seq<string>
  {
    seq(|entries|, k requires 0 <= k < |entries| => entries[k].title)
  }

  lemma {:induction false} EntriesFromTitles(lines: seq<string>, current: Option<BlogEntry>)
    ensures Titles(EntriesFrom(lines, current)) == Titles(Pending(current)) + TitleValues(lines)
    decreases |lines|
  {
    if |lines| > 0 {
      if IsTitleLine(lines[0]) {
        ValueLinesHaveColon(lines[0]);
        var next := Some(BlogEntry(ValueOf(lines[0]), None, None));
        EntriesFromTitles(lines[1..], next);
        TitlesAppend(Pending(current), EntriesFrom(lines[1..], next));
      } else {
        EntriesFromTitles(lines[1..], Absorb(current, lines[0]));
        assert Absorb(current, lines[0]).Some? == current.Some?;
        assert current.Some? ==> Absorb(current, lines[0]).value.title == current.value.title;
      }
    }
  }

  lemma TitlesAppend(a: seq<BlogEntry>, b: seq<BlogEntry>)
    ensures Titles(a + b) == Titles(a) + Titles(b)
  {
  }

  /** The reader yields one entry per line that starts with `- title:`, in
      file order, each titled with the text after that line's colon. */
  lemma EntryPerTitleLine(lines: seq<string>)
    ensures Titles(ParseBlogLines(lines)) == TitleValues(lines)
    ensures |ParseBlogLines(lines)| == |TitleValues(lines)|
  {
    EntriesFromTitles(lines, None);
  }

  /** Lines before the first title line, dates and images included, leave
      no trace. */
  lemma {:induction false} PreambleIgnored(preamble: seq<string>, rest: seq<string>)
    requires forall k | 0 <= k < |preamble| :: !IsTitleLine(preamble[k])
    ensures ParseBlogLines(preamble + rest) == ParseBlogLines(rest)
    decreases |preamble|
  {
    if |preamble| > 0 {
      assert (preamble + rest)[0] == preamble[0];
      assert (preamble + rest)[1..] == preamble[1..] + rest;
      PreambleIgnored(preamble[1..], rest);
    } else {
      assert preamble + rest == rest;
    }
  }

  /** The value of the last line in `body` that `p` picks, if any. */
  function LastValue(body: seq<string>, p: string -> bool): Option<string>
    decreases |body|
  {
    if |body| == 0 then None
    else
      var line := body[|body| - 1];
      if p(line) && ':' in line then Some(ValueOf(line))
      else LastValue(body[..|body| - 1], p)
  }

  /** No line is both a date line and an image line. */
  lemma DateOrImage(line: string)
    ensures !(IsDateLine(line) && IsImageLine(line))
  {
    if IsDateLine(line) {
      assert Trim(line)[0] == 'd';
    }
  }

  /** The lines after a title line, up to the next one, set the entry's date
      to the last date line among them and its image to the last image line:
      a later line overwrites an earlier one. */
  lemma {:induction false} EntryBody(e: BlogEntry, body: seq<string>, rest: seq<string>)
    requires forall k | 0 <= k < |body| :: !IsTitleLine(body[k])
    ensures EntriesFrom(body + rest, Some(e)) ==
            EntriesFrom(rest, Some(BlogEntry(e.title,
              if LastValue(body, IsDateLine).Some? then LastValue(body, IsDateLine) else e.date,
              if LastValue(body, IsImageLine).Some? then LastValue(body, IsImageLine) else e.image)))
    decreases |body|
  {
    if |body| > 0 {
      var init := body[..|body| - 1];
      var line := body[|body| - 1];
      assert body + rest == init + ([line] + rest);
      EntryBody(e, init, [line] + rest);
      var mid := BlogEntry(e.title,
        if LastValue(init, IsDateLine).Some? then LastValue(init, IsDateLine) else e.date,
        if LastValue(init, IsImageLine).Some? then LastValue(init, IsImageLine) else e.image);
      assert ([line] + rest)[0] == line && ([line] + rest)[1..] == rest;
      assert EntriesFrom([line] + rest, Some(mid)) == EntriesFrom(rest, Absorb(Some(mid), line));
      ValueLinesHaveColon(line);
      DateOrImage(line);
      assert init == body[..|body| - 1];
    } else {
      assert body + rest == rest;
    }
  }

  /** A title line followed by its body gives the entry with that title and
      the body's last date and last image. */
  lemma TitleBlock(title: string, body: seq<string>)
    requires IsTitleLine(title)
    requires forall k | 0 <= k < |body| :: !IsTitleLine(body[k])
    ensures ':' in title
    ensures ParseBlogLines([title] + body) ==
            [BlogEntry(ValueOf(title), LastValue(body, IsDateLine), LastValue(body, IsImageLine))]
  {
    ValueLinesHaveColon(title);
    assert ([title] + body)[1..] == body;
    EntryBody(BlogEntry(ValueOf(title), None, None), body, []);
    assert body + [] == body;
  }
}
