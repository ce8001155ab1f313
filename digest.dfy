/** Digest assembly, the loop of `_process_files` and `_process_directory`:
    for each entry in order that the admission filter accepts, append the
    header "<marker> File: <path>\n", the cleaned content and "\n\n"; the
    digest is the concatenation. A file that cannot be decoded, or a Python
    file the parser rejects, aborts the whole digest. */
module Digest {
  import opened TextOps
  import opened Outcomes
  import opened Admission
  import opened Reducers

  /** A file offered to the digest: its path and its text, or `None` when its
      bytes are not valid UTF-8. */
  datatype Entry = Entry(path: string, content: Option<string>)

  function Header(path: string): string {
    HeaderLine(CommentSyntax(path), path)
  }

  /** The line that introduces a file: its comment marker, then "File: " and
      its path. */
  function HeaderLine(marker: string, path: string): string {
    marker + " File: " + path + "\n"
  }

  function Section(path: string, cleaned: string): string {
    Header(path) + cleaned + "\n\n"
  }

  /** The cleaning applied to a file's text, given its path. */
  type Cleaner = (string, string) -> Result<string>

  /** `_clean_file_content` with the parsers in force. */
  function Cleaning(parsers: Parsers): Cleaner {
    (path, text) => CleanedContent(path, text, parsers)
  }

  /** What one entry adds to the digest, given the admission test in force. */
  function EntryText(e: Entry, admit: string -> bool, clean: Cleaner): Result<string> {
    if !admit(e.path) then Ok("")
    else match e.content
      case None => Err(Undecodable(e.path))
      case Some(text) =>
        match clean(e.path, text)
        case Err(err) => Err(err)
        case Ok(cleaned) => Ok(Section(e.path, cleaned))
  }

  /** p + r for a successful r; an error passes through. */
  function Prefixed(p: string, r: Result<string>): Result<string> {
    match r
    case Ok(d) => Ok(p + d)
    case Err(err) => Err(err)
  }

  /** The digest of a sequence of entries: the first failure, or the texts of
      all entries concatenated in order. */
  function DigestWith(entries: seq<Entry>, admit: string -> bool, clean: Cleaner): Result<string> {
    if |entries| == 0 then Ok("")
    else
      match EntryText(entries[0], admit, clean)
      case Err(err) => Err(err)
      case Ok(t) => Prefixed(t, DigestWith(entries[1..], admit, clean))
  }

  /** The digest with the admission filter applied to each entry's own path. */
  function DigestOf(entries: seq<Entry>, parsers: Parsers): Result<string> {
    DigestWith(entries, IsValidFile, Cleaning(parsers))
  }

  lemma PrefixedTwice(a: string, b: string, r: Result<string>)
    ensures Prefixed(a, Prefixed(b, r)) == Prefixed(a + b, r)
  {
    if r.Ok? {
      assert a + (b + r.value) == (a + b) + r.value;
    }
  }

  lemma PrefixedEmpty(r: Result<string>)
    ensures Prefixed("", r) == r
  {
    if r.Ok? {
      assert "" + r.value == r.value;
    }
  }

  /** The pieces one entry appends to `processed_texts`: none for a rejected
      entry, else its header, its cleaned content and a blank line; or the
      error that aborts the digest. */
  function EntryPieces(e: Entry, admit: string -> bool, clean: Cleaner): Result<seq<string>> {
    if !admit(e.path) then Ok([])
    else match e.content
      case None => Err(Undecodable(e.path))
      case Some(text) =>
        match clean(e.path, text)
        case Err(err) => Err(err)
        case Ok(cleaned) => Ok([Header(e.path), cleaned, "\n\n"])
  }

  /** `_process_files`, and the inner loop of `_process_directory`, with the
      admission test passed in. */
  method ProcessEntries(entries: seq<Entry>, admit: string -> bool, parsers: Parsers)
    returns (r: Result<string>)
    ensures r == DigestWith(entries, admit, Cleaning(parsers))
  {
    var clean := Cleaning(parsers);
    PrefixedEmpty(DigestWith(entries, admit, clean));
    var processedTexts: seq<string> := [];
    var i := 0;
    while i < |entries|
      invariant i <= |entries|
      invariant DigestWith(entries, admit, clean)
        == Prefixed(Concat(processedTexts), DigestWith(entries[i..], admit, clean))
    {
      var pieces := ProcessEntry(entries[i], admit, parsers);
      if pieces.Err? {
        FailedStep(entries, i, admit, clean, processedTexts, pieces.error);
        return Err(pieces.error);
      }
      EntryStep(entries, i, admit, clean, processedTexts, pieces.value);
      processedTexts := processedTexts + pieces.value;
      i := i + 1;
    }
    assert entries[i..] == [];
    assert Concat(processedTexts) + "" == Concat(processedTexts);
    return Ok(Concat(processedTexts));
  }

  /** The body of the loop for one entry. */
  method ProcessEntry(e: Entry, admit: string -> bool, parsers: Parsers)
    returns (r: Result<seq<string>>)
    ensures r == EntryPieces(e, admit, Cleaning(parsers))
  {
    if !admit(e.path) {
      return Ok([]);
    }
    if e.content.None? {
      return Err(Undecodable(e.path));
    }
    var marker := CommentSyntax(e.path);
    var header := HeaderLine(marker, e.path);
    var cleaned := CleanFileContent(e.path, e.content.value, parsers);
    CleaningApplies(parsers, e.path, e.content.value);
    if cleaned.Err? {
      return Err(cleaned.error);
    }
    return Ok([header, cleaned.value, "\n\n"]);
  }

  /** The loop invariant survives appending an entry's pieces. */
  lemma EntryStep(entries: seq<Entry>, i: nat, admit: string -> bool, clean: Cleaner,
                  processed: seq<string>, pieces: seq<string>)
    requires i < |entries| && EntryPieces(entries[i], admit, clean) == Ok(pieces)
    ensures Prefixed(Concat(processed), DigestWith(entries[i..], admit, clean))
      == Prefixed(Concat(processed + pieces), DigestWith(entries[i + 1..], admit, clean))
  {
    var e := entries[i];
    if admit(e.path) {
      AdmittedStep(entries, i, admit, clean, processed, pieces[1]);
    } else {
      assert processed + pieces == processed;
      RejectedStep(entries, i, admit, clean, processed);
    }
  }

  /** An admitted entry that decodes and cleans adds its section. */
  lemma AdmittedStep(entries: seq<Entry>, i: nat, admit: string -> bool, clean: Cleaner,
                     processed: seq<string>, cleaned: string)
    requires i < |entries| && admit(entries[i].path) && entries[i].content.Some?
    requires clean(entries[i].path, entries[i].content.value) == Ok(cleaned)
    ensures Prefixed(Concat(processed), DigestWith(entries[i..], admit, clean))
      == Prefixed(Concat(processed + [Header(entries[i].path), cleaned, "\n\n"]),
                  DigestWith(entries[i + 1..], admit, clean))
  {
    DigestStep(entries, i, admit, clean);
    assert EntryText(entries[i], admit, clean) == Ok(Section(entries[i].path, cleaned));
    AppendSection(processed, entries[i].path, cleaned, DigestWith(entries[i + 1..], admit, clean));
  }

  lemma CleaningApplies(parsers: Parsers, path: string, text: string)
    ensures Cleaning(parsers)(path, text) == CleanedContent(path, text, parsers)
  {
  }

  /** The loop invariant survives skipping a rejected entry. */
  lemma RejectedStep(entries: seq<Entry>, i: nat, admit: string -> bool, clean: Cleaner,
                     processed: seq<string>)
    requires i < |entries| && !admit(entries[i].path)
    ensures Prefixed(Concat(processed), DigestWith(entries[i..], admit, clean))
      == Prefixed(Concat(processed), DigestWith(entries[i + 1..], admit, clean))
  {
    DigestStep(entries, i, admit, clean);
    PrefixedEmpty(DigestWith(entries[i + 1..], admit, clean));
  }

  /** An admitted entry that cannot be decoded or cleaned ends the digest
      with its error. */
  lemma FailedStep(entries: seq<Entry>, i: nat, admit: string -> bool, clean: Cleaner,
                   processed: seq<string>, err: Error)
    requires i < |entries| && EntryPieces(entries[i], admit, clean) == Err(err)
    ensures Prefixed(Concat(processed), DigestWith(entries[i..], admit, clean)) == Err(err)
  {
    DigestStep(entries, i, admit, clean);
  }

  lemma DigestStep(entries: seq<Entry>, i: nat, admit: string -> bool, clean: Cleaner)
    requires i < |entries|
    ensures DigestWith(entries[i..], admit, clean) ==
      match EntryText(entries[i], admit, clean)
      case Err(err) => Err(err)
      case Ok(t) => Prefixed(t, DigestWith(entries[i + 1..], admit, clean))
  {
    assert entries[i..][1..] == entries[i + 1..];
  }

  lemma AppendSection(processed: seq<string>, path: string, cleaned: string, rest: Result<string>)
    ensures Prefixed(Concat(processed), Prefixed(Section(path, cleaned), rest))
      == Prefixed(Concat(processed + [Header(path), cleaned, "\n\n"]), rest)
  {
    var pieces := [Header(path), cleaned, "\n\n"];
    ConcatAppend(processed, pieces);
    assert pieces[1..] == [cleaned, "\n\n"] && pieces[1..][1..] == ["\n\n"];
    assert Concat(["\n\n"]) == "\n\n";
    assert Concat(pieces) == Header(path) + (cleaned + "\n\n") == Section(path, cleaned);
    PrefixedTwice(Concat(processed), Section(path, cleaned), rest);
  }

  // ---------------------------------------------------------------------
  // Properties

  /** An entry succeeds when it is rejected, or when it decodes and cleans. */
  predicate Succeeds(e: Entry, admit: string -> bool, clean: Cleaner) {
    !admit(e.path) || (e.content.Some? && clean(e.path, e.content.value).Ok?)
  }

  /** The digest succeeds exactly when every entry does. */
  lemma {:induction false} DigestOkIff(entries: seq<Entry>, admit: string -> bool, clean: Cleaner)
    ensures DigestWith(entries, admit, clean).Ok?
      <==> forall k :: 0 <= k < |entries| ==> Succeeds(entries[k], admit, clean)
    decreases |entries|
  {
    if |entries| > 0 {
      DigestOkIff(entries[1..], admit, clean);
      if forall k :: 1 <= k < |entries| ==> Succeeds(entries[k], admit, clean) {
        assert forall k :: 0 <= k < |entries[1..]| ==> Succeeds(entries[1..][k], admit, clean);
      }
      if !(forall k :: 1 <= k < |entries| ==> Succeeds(entries[k], admit, clean)) {
        var k :| 1 <= k < |entries| && !Succeeds(entries[k], admit, clean);
        assert !Succeeds(entries[1..][k - 1], admit, clean);
      }
    }
  }

  /** A failing digest reports the failure of the first entry that fails. */
  lemma {:induction false} DigestErrFirst(entries: seq<Entry>, admit: string -> bool, clean: Cleaner, k: nat)
    requires k < |entries| && !Succeeds(entries[k], admit, clean)
    requires forall j :: 0 <= j < k ==> Succeeds(entries[j], admit, clean)
    ensures DigestWith(entries, admit, clean) == EntryText(entries[k], admit, clean)
    decreases k
  {
    if k > 0 {
      DigestErrFirst(entries[1..], admit, clean, k - 1);
    }
  }

  /** Entries the filter rejects contribute nothing. */
  lemma RejectedContributesNothing(e: Entry, rest: seq<Entry>, admit: string -> bool, clean: Cleaner)
    requires !admit(e.path)
    ensures DigestWith([e] + rest, admit, clean) == DigestWith(rest, admit, clean)
  {
    assert ([e] + rest)[1..] == rest;
    PrefixedEmpty(DigestWith(rest, admit, clean));
  }

  /** The entries the filter accepts, in order. */
  function Admitted(entries: seq<Entry>, admit: string -> bool): (r: seq<Entry>)
    ensures forall k :: 0 <= k < |r| ==> admit(r[k].path)
    ensures |r| <= |entries|
  {
    if |entries| == 0 then []
    else (if admit(entries[0].path) then [entries[0]] else []) + Admitted(entries[1..], admit)
  }

  /** The filter keeps exactly the accepted entries: every kept entry is one
      of the entries, and every accepted entry is kept. */
  lemma {:induction false} AdmittedMembers(entries: seq<Entry>, admit: string -> bool)
    ensures forall e :: e in Admitted(entries, admit) <==> e in entries && admit(e.path)
    decreases |entries|
  {
    if |entries| > 0 {
      AdmittedMembers(entries[1..], admit);
      assert entries == [entries[0]] + entries[1..];
    }
  }

  /** Filtering distributes over concatenation, so the kept entries stay in
      their original order. */
  lemma {:induction false} AdmittedAppend(a: seq<Entry>, b: seq<Entry>, admit: string -> bool)
    ensures Admitted(a + b, admit) == Admitted(a, admit) + Admitted(b, admit)
    decreases |a|
  {
    if |a| == 0 {
      assert a + b == b;
    } else {
      assert (a + b)[0] == a[0] && (a + b)[1..] == a[1..] + b;
      AdmittedAppend(a[1..], b, admit);
      var head := if admit(a[0].path) then [a[0]] else [];
      assert Admitted(a + b, admit) == head + Admitted(a[1..] + b, admit);
      assert Admitted(a, admit) == head + Admitted(a[1..], admit);
      assert head + (Admitted(a[1..], admit) + Admitted(b, admit))
        == (head + Admitted(a[1..], admit)) + Admitted(b, admit);
    }
  }

  /** When the filter rejects every entry the digest is empty, whatever the
      entries hold. */
  lemma {:induction false} NothingAdmittedDigestEmpty(entries: seq<Entry>, admit: string -> bool,
                                                      clean: Cleaner)
    requires forall k :: 0 <= k < |entries| ==> !admit(entries[k].path)
    ensures DigestWith(entries, admit, clean) == Ok("")
    decreases |entries|
  {
    if |entries| > 0 {
      NothingAdmittedDigestEmpty(entries[1..], admit, clean);
      RejectedContributesNothing(entries[0], entries[1..], admit, clean);
      assert entries == [entries[0]] + entries[1..];
    }
  }

  /** Dropping the rejected entries first does not change the digest. */
  lemma {:induction false} DigestOfAdmitted(entries: seq<Entry>, admit: string -> bool, clean: Cleaner)
    ensures DigestWith(Admitted(entries, admit), admit, clean) == DigestWith(entries, admit, clean)
    decreases |entries|
  {
    if |entries| > 0 {
      var rest := Admitted(entries[1..], admit);
      DigestOfAdmitted(entries[1..], admit, clean);
      if admit(entries[0].path) {
        assert ([entries[0]] + rest)[1..] == rest;
      } else {
        assert [] + rest == rest;
        PrefixedEmpty(DigestWith(entries[1..], admit, clean));
      }
    }
  }

  /** The digest of two runs of entries is the first digest followed by the
      second, unless the first fails. */
  lemma {:induction false} DigestAppend(a: seq<Entry>, b: seq<Entry>, admit: string -> bool, clean: Cleaner)
    ensures DigestWith(a + b, admit, clean) ==
      match DigestWith(a, admit, clean)
      case Err(err) => Err(err)
      case Ok(d) => Prefixed(d, DigestWith(b, admit, clean))
    decreases |a|
  {
    if |a| == 0 {
      assert a + b == b;
      PrefixedEmpty(DigestWith(b, admit, clean));
    } else {
      assert (a + b)[1..] == a[1..] + b;
      DigestAppend(a[1..], b, admit, clean);
      if EntryText(a[0], admit, clean).Ok? && DigestWith(a[1..], admit, clean).Ok? {
        PrefixedTwice(EntryText(a[0], admit, clean).value,
          DigestWith(a[1..], admit, clean).value, DigestWith(b, admit, clean));
      }
    }
  }

  /** When every entry succeeds, the digest is the concatenation of the
      sections of exactly the admitted entries, in order. */
  function Sections(entries: seq<Entry>, admit: string -> bool, clean: Cleaner): seq<string>
    requires forall k :: 0 <= k < |entries| ==> Succeeds(entries[k], admit, clean)
  {
    if |entries| == 0 then []
    else
      var e := entries[0];
      assert Succeeds(e, admit, clean);
      assert forall k :: 0 <= k < |entries[1..]| ==> Succeeds(entries[1..][k], admit, clean);
      (if admit(e.path) then [Section(e.path, clean(e.path, e.content.value).value)] else [])
        + Sections(entries[1..], admit, clean)
  }

  lemma {:induction false} DigestIsSections(entries: seq<Entry>, admit: string -> bool, clean: Cleaner)
    requires forall k :: 0 <= k < |entries| ==> Succeeds(entries[k], admit, clean)
    ensures DigestWith(entries, admit, clean) == Ok(Concat(Sections(entries, admit, clean)))
    decreases |entries|
  {
    if |entries| > 0 {
      DigestIsSections(entries[1..], admit, clean);
      var head := if admit(entries[0].path) then
        [Section(entries[0].path, clean(entries[0].path, entries[0].content.value).value)]
        else [];
      ConcatAppend(head, Sections(entries[1..], admit, clean));
    }
  }

  /** Every header in a digest of admitted paths names its file after the
      marker "#" (Python) or "//" (the other languages). */
  lemma AdmittedHeader(path: string)
    requires IsValidFile(path)
    ensures Header(path) == (if EndsWith(path, ".py") then "#" else "//") + " File: " + path + "\n"
  {
    AdmittedMarker(path);
  }
}
