/** `Clip` and `_parse_record` (kclip.py:52-59, 155-174): a record of four
    lines becomes a book identity and one clipping, each field read by the
    extractor the syntax names for it. */
module Records {
  import opened Base
  import opened PyStr
  import opened Fields
  import opened Dates

  /** One clipping. The `book` argument of `Clip.__init__` is not stored. */
  datatype Clip = Clip(clipType: string, location: string, datetime: DateTime, notes: string)

  /** `Clip.__init__`: the notes are kept stripped, and an all-blank note
      becomes the empty string, never None. */
  function NewClip(clipType: string, location: string, datetime: DateTime, notes: string): (c: Clip)
    ensures c.clipType == clipType && c.location == location && c.datetime == datetime
    ensures c.notes == Strip(notes) && IsStripped(c.notes)
    ensures c.notes == [] <==> AllSpace(notes)
  {
    StripEmpty(notes);
    var stripped := Strip(notes);
    Clip(clipType, location, datetime, if stripped != [] then stripped else [])
  }

  /** The `parsers` dictionary: one extractor per field. Title and
      attribution read the first line of a record, the other three the
      second. */
  datatype Syntax = Syntax(
    title: string -> Result<string>,
    attribution: string -> Result<Option<string>>,
    clipType: string -> Result<string>,
    location: string -> Result<string>,
    datetime: string -> Result<DateTime>)

  /** `DEFAULT_SYNTAX`. */
  const DefaultSyntax: Syntax := Syntax(ParseTitle, ParseAttribution, ParseType, ParseLocation, ParseDateTime)

  /** What `_parse_record` returns: the book's title and attribution (the
      `Book` it builds holds nothing else yet) and the clipping. */
  datatype Record = Record(title: string, attribution: Option<string>, clip: Clip)

  /** `_parse_record`: unpack exactly four lines, then call the extractors
      in the order title, attribution, type, location, time; the first
      failure is the result. The third line is never read. */
  function ParseRecord(raw: seq<string>, syntax: Syntax): (r: Result<Record>)
    ensures |raw| != 4 ==> r == Err(RecordShape(|raw|))
    ensures r.Ok? <==> |raw| == 4 && syntax.title(raw[0]).Ok? && syntax.attribution(raw[0]).Ok?
                       && syntax.clipType(raw[1]).Ok? && syntax.location(raw[1]).Ok?
                       && syntax.datetime(raw[1]).Ok?
    ensures r.Ok? ==> r.value.title == syntax.title(raw[0]).value
                      && r.value.attribution == syntax.attribution(raw[0]).value
                      && r.value.clip.clipType == syntax.clipType(raw[1]).value
                      && r.value.clip.location == syntax.location(raw[1]).value
                      && r.value.clip.datetime == syntax.datetime(raw[1]).value
                      && r.value.clip.notes == Strip(raw[3])
  {
    if |raw| != 4 then Err(RecordShape(|raw|))
    else
      var title :- syntax.title(raw[0]);
      var attribution :- syntax.attribution(raw[0]);
      var clipType :- syntax.clipType(raw[1]);
      var location :- syntax.location(raw[1]);
      var datetime :- syntax.datetime(raw[1]);
      Ok(Record(title, attribution, NewClip(clipType, location, datetime, raw[3])))
  }

  /** The error of a four-line record is that of the first extractor, in
      call order, that fails. */
  lemma RecordErrorOrder(raw: seq<string>, syntax: Syntax)
    requires |raw| == 4
    ensures syntax.title(raw[0]).Err? ==> ParseRecord(raw, syntax) == Err(syntax.title(raw[0]).error)
    ensures syntax.title(raw[0]).Ok? && syntax.attribution(raw[0]).Err? ==>
              ParseRecord(raw, syntax) == Err(syntax.attribution(raw[0]).error)
    ensures syntax.title(raw[0]).Ok? && syntax.attribution(raw[0]).Ok? && syntax.clipType(raw[1]).Err? ==>
              ParseRecord(raw, syntax) == Err(syntax.clipType(raw[1]).error)
    ensures syntax.title(raw[0]).Ok? && syntax.attribution(raw[0]).Ok? && syntax.clipType(raw[1]).Ok?
            && syntax.location(raw[1]).Err? ==>
              ParseRecord(raw, syntax) == Err(syntax.location(raw[1]).error)
    ensures syntax.title(raw[0]).Ok? && syntax.attribution(raw[0]).Ok? && syntax.clipType(raw[1]).Ok?
            && syntax.location(raw[1]).Ok? && syntax.datetime(raw[1]).Err? ==>
              ParseRecord(raw, syntax) == Err(syntax.datetime(raw[1]).error)
  {
  }

  /** The third line of a record (the blank line) does not matter. */
  lemma BlankLineIgnored(raw: seq<string>, line: string, syntax: Syntax)
    requires |raw| == 4
    ensures ParseRecord(raw[2 := line], syntax) == ParseRecord(raw, syntax)
  {
  }

  /** With the default syntax, the first line decides whether the record
      fails: a line that strips to nothing fails with EmptyLine before the
      second line is read. */
  lemma EmptyTitleLine(raw: seq<string>)
    requires |raw| == 4 && AllSpace(raw[0])
    ensures ParseRecord(raw, DefaultSyntax) == Err(EmptyLine)
  {
    StripEmpty(raw[0]);
  }
}
