/** The issues that baselines are made from, and where they are. */
module ReportedIssues {

  datatype Option<+T> = None | Some(value: T)

  datatype Annotation = Annotation(primary: bool, fileId: nat, startOffset: nat, endOffset: nat)

  datatype Issue = Issue(code: Option<string>, message: string, annotations: seq<Annotation>)

  datatype SourceFile = SourceFile(name: string, line: nat -> nat)

  type Database = map<nat, SourceFile>

  /** The place an issue is known by, when it has one. */
  datatype Place = Place(file: string, startLine: nat, endLine: nat)

  /** The first primary annotation, else the first one. */
  function BaselineAnnotation(annotations: seq<Annotation>): (r: Option<Annotation>)
    ensures r.None? <==> annotations == []
  {
    var primary := FirstPrimary(annotations);
    if primary.Some? then primary else if annotations == [] then None else Some(annotations[0])
  }

  function FirstPrimary(annotations: seq<Annotation>): Option<Annotation> {
    if annotations == [] then None
    else if annotations[0].primary then Some(annotations[0])
    else FirstPrimary(annotations[1..])
  }

  function NormalizePath(path: string): (r: string)
    ensures |r| == |path| && forall i :: 0 <= i < |r| ==> r[i] == if path[i] == '\\' then '/' else path[i]
  {
    seq(|path|, i requires 0 <= i < |path| => if path[i] == '\\' then '/' else path[i])
  }

  function Locate(issue: Issue, db: Database): Option<Place> {
    match BaselineAnnotation(issue.annotations)
    case None => None
    case Some(a) =>
      if a.fileId !in db then None
      else
        var file := db[a.fileId];
        Some(Place(NormalizePath(file.name), file.line(a.startOffset), file.line(a.endOffset)))
  }

  function CodeOf(issue: Issue): string {
    if issue.code.Some? then issue.code.value else "unknown"
  }

  /** The annotation `i` is the one an issue is known by: the first primary one, or the very first. */
  predicate KnownBy(annotations: seq<Annotation>, i: nat) {
    && i < |annotations|
    && if annotations[i].primary then forall j :: 0 <= j < i ==> !annotations[j].primary
       else i == 0 && forall j :: 0 <= j < |annotations| ==> !annotations[j].primary
  }

  lemma {:induction false} FirstPrimaryIs(annotations: seq<Annotation>, i: nat)
    requires i < |annotations| && annotations[i].primary && forall j :: 0 <= j < i ==> !annotations[j].primary
    ensures FirstPrimary(annotations) == Some(annotations[i])
  {
    if i > 0 {
      FirstPrimaryIs(annotations[1..], i - 1);
    }
  }

  lemma {:induction false} NoPrimary(annotations: seq<Annotation>)
    requires forall j :: 0 <= j < |annotations| ==> !annotations[j].primary
    ensures FirstPrimary(annotations) == None
  {
    if annotations != [] {
      NoPrimary(annotations[1..]);
    }
  }

  /** Where an issue is: the file and the lines of the ends of that annotation, its name with forward
      slashes; nowhere if its file is not known.
   */
  lemma LocateIs(issue: Issue, db: Database, i: nat)
    requires KnownBy(issue.annotations, i)
    ensures var a := issue.annotations[i];
            && (Locate(issue, db).Some? <==> a.fileId in db)
            && (a.fileId in db ==>
                  && Locate(issue, db).value.startLine == db[a.fileId].line(a.startOffset)
                  && Locate(issue, db).value.endLine == db[a.fileId].line(a.endOffset)
                  && Locate(issue, db).value.file == NormalizePath(db[a.fileId].name))
  {
    if issue.annotations[i].primary {
      FirstPrimaryIs(issue.annotations, i);
    } else {
      NoPrimary(issue.annotations);
    }
  }
}
