/**
  `handleFileUpload` and the component state it updates: the list of
  distributed uploads, newest first. An upload either fails (no file, a file
  of the wrong type, a parse error, no data rows) and leaves the history as it
  was, or prepends one entry holding the file name, the id and date it was
  given, the record count and the per-agent shares.
*/
module DistributionSession {
  import opened Results
  import opened JsBuiltins
  import opened FileValidator
  import opened RecordParser
  import opened Partitioner

  /** The fixed roster of the component. */
  const Roster: seq<string> := ["John Doe", "Jane Smith", "Mike Johnson", "Sarah Wilson", "David Brown"]

  /** One processed upload. */
  datatype DistributedList = DistributedList(
    id: string,
    fileName: string,
    uploadDate: string,
    totalItems: nat,
    agentDistribution: seq<Assignment<ListItem>>)

  /** Why an upload produced no entry. */
  datatype UploadError =
    | NoFileSelected            // `if (!file) return;`
    | InvalidFileType           // the "Invalid File Type" toast
    | ParseFailed(cause: ParseError)  // `parseCSV` threw: the "Upload Failed" toast
    | NoValidData               // "No valid data found in the file"

  /** The records of a file whose text parses. */
  predicate Parses(file: FileInfo) {
    ParseContent(file.text).Ok?
  }

  /**
    What one upload produces, given the id (`Date.now().toString()`) and the
    date (`new Date().toLocaleDateString()`) in force when it runs. The guards
    are tried in order: a file must be chosen, pass the type test, parse, and
    yield at least one record.
  */
  function ProcessUpload(file: Option<FileInfo>, agents: seq<string>, id: string, uploadDate: string): (r: Result<DistributedList, UploadError>)
    ensures r.Ok? <==>
      file.Some? && ValidateFile(file.value) && Parses(file.value) && |ParseContent(file.value.text).value| > 0
    ensures file.None? ==> r == Err(NoFileSelected)
    ensures file.Some? && !ValidateFile(file.value) ==> r == Err(InvalidFileType)
    ensures file.Some? && ValidateFile(file.value) && !Parses(file.value) ==>
      r == Err(ParseFailed(ParseContent(file.value.text).error))
    ensures file.Some? && ValidateFile(file.value) && Parses(file.value) && ParseContent(file.value.text).value == [] ==>
      r == Err(NoValidData)
    ensures r.Ok? ==>
      r.value.id == id && r.value.fileName == file.value.name && r.value.uploadDate == uploadDate &&
      r.value.totalItems == |ParseContent(file.value.text).value| &&
      r.value.agentDistribution == DistributeItems(ParseContent(file.value.text).value, agents)
  {
    match file
    case None => Err(NoFileSelected)
    case Some(f) =>
      if !ValidateFile(f) then Err(InvalidFileType)
      else match ParseContent(f.text)
        case Err(e) => Err(ParseFailed(e))
        case Ok(items) =>
          if |items| == 0 then Err(NoValidData)
          else Ok(DistributedList(id, f.name, uploadDate, |items|, DistributeItems(items, agents)))
  }

  /**
    An entry as every successful upload leaves it: records present, one share
    per agent, in roster order, and for a non-empty roster share sizes adding
    up to the record count.
  */
  predicate WellFormedEntry(entry: DistributedList, agents: seq<string>) {
    entry.totalItems >= 1 &&
    |entry.agentDistribution| == |agents| &&
    (forall i :: 0 <= i < |agents| ==> entry.agentDistribution[i].agentName == agents[i]) &&
    (|agents| >= 1 ==> TotalAssigned(entry.agentDistribution) == entry.totalItems)
  }

  /** A successful upload yields a well-formed entry. */
  lemma ProcessedEntryWellFormed(file: Option<FileInfo>, agents: seq<string>, id: string, uploadDate: string)
    requires ProcessUpload(file, agents, id, uploadDate).Ok?
    ensures WellFormedEntry(ProcessUpload(file, agents, id, uploadDate).value, agents)
  {
    if |agents| >= 1 {
      TotalIsItemCount(ParseContent(file.value.text).value, agents);
    }
  }

  /** A file that fails the type test is refused before its text is parsed, whatever the text. */
  lemma InvalidTypeIgnoresText(file: FileInfo, agents: seq<string>, id: string, uploadDate: string)
    requires !ValidateFile(file)
    ensures ProcessUpload(Some(file), agents, id, uploadDate) == Err(InvalidFileType)
    ensures forall text :: ProcessUpload(Some(file.(text := text)), agents, id, uploadDate) == Err(InvalidFileType)
  {
  }

  /** Blank content is a parse failure, not an empty upload. */
  lemma BlankFileFails(file: FileInfo, agents: seq<string>, id: string, uploadDate: string)
    requires ValidateFile(file) && AllWhitespace(file.text)
    ensures ProcessUpload(Some(file), agents, id, uploadDate) == Err(ParseFailed(NoLines))
  {
    NoLinesIff(file.text);
  }

  /**
    Six records over the five-agent roster: the second record goes to the
    first two agents and the sixth to nobody.
  */
  lemma RosterSixRecords(items: seq<ListItem>)
    requires |items| == 6
    ensures var r := DistributeItems(items, Roster);
      r[0].items == items[0..2] && r[1].items == items[1..2] && r[4].items == items[4..5] &&
      !Assigned(5, |items|, |Roster|)
  {
    assert |Roster| == 5;
    assert 6 / 5 == 1 && 6 % 5 == 1;
    RemainderLosesTail(6, 5);
  }

  /** The component: a fixed roster and the uploads distributed so far, newest first. */
  class ListDistribution {
    const agents: seq<string>
    var distributedLists: seq<DistributedList>

    /** Every stored entry is well formed for this roster. */
    predicate Valid()
      reads this
    {
      forall j :: 0 <= j < |distributedLists| ==> WellFormedEntry(distributedLists[j], agents)
    }

    /** `useState<DistributedList[]>([])` over the given roster. */
    constructor(roster: seq<string>)
      ensures agents == roster && distributedLists == []
      ensures Valid()
    {
      agents := roster;
      distributedLists := [];
    }

    /**
      `handleFileUpload`: checks, parses, distributes and, on success, prepends
      the new entry (`setDistributedLists([newDistributedList, ...distributedLists])`).
    */
    method HandleFileUpload(file: Option<FileInfo>, id: string, uploadDate: string)
      returns (outcome: Result<DistributedList, UploadError>)
      requires Valid()
      modifies this
      ensures Valid()
      ensures outcome == ProcessUpload(file, agents, id, uploadDate)
      ensures distributedLists == if outcome.Ok? then [outcome.value] + old(distributedLists) else old(distributedLists)
    {
      if file.None? {
        return Err(NoFileSelected);
      }
      var f := file.value;
      if !ValidateFile(f) {
        return Err(InvalidFileType);
      }
      var parsed := ParseCsv(f.text);
      if parsed.Err? {
        return Err(ParseFailed(parsed.error));
      }
      var items := parsed.value;
      if |items| == 0 {
        return Err(NoValidData);
      }
      var distribution := DistributeItems(items, agents);
      var entry := DistributedList(id, f.name, uploadDate, |items|, distribution);
      ProcessedEntryWellFormed(file, agents, id, uploadDate);
      distributedLists := [entry] + distributedLists;
      outcome := Ok(entry);
    }
  }
}
