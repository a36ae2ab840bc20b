/** The `/upload` handler of the backend: an uploaded PDF is renamed into the first
    free slot, `pdf_a.pdf` then `pdf_b.pdf`, and a third upload is refused. The upload
    directory is modelled as the set of its file names. */
module Upload {
  import opened Wrappers
  import opened Strings

  type Dir = set<string>

  const SlotA: string := "pdf_a.pdf"
  const SlotB: string := "pdf_b.pdf"
  const Slots: set<string> := {SlotA, SlotB}

  const TooManyStatus: nat := 400
  const TooManyError: string := "Only two PDFs allowed: pdf_a and pdf_b."
  const FailedStatus: nat := 500
  const FailedError: string := "Upload failed"

  /** `fs.readdirSync(uploadDir).filter(f => f.endsWith('.pdf'))`. */
  function PdfFiles(dir: Dir): (files: set<string>)
    ensures files <= dir
    ensures forall f :: f in files <==> f in dir && EndsWith(f, ".pdf")
  {
    set f | f in dir && EndsWith(f, ".pdf")
  }

  /** The slot files present in `dir`. */
  function SlotFiles(dir: Dir): (slots: set<string>) {
    dir * Slots
  }

  datatype Decision = Fill(name: string) | Reject(status: nat, error: string)

  /** The three-way choice of a new file name from the listed `.pdf` files. */
  function ChooseSlot(files: set<string>): (d: Decision)
    ensures d == Fill(SlotA) <==> SlotA !in files
    ensures d == Fill(SlotB) <==> SlotA in files && SlotB !in files
    ensures d == Reject(TooManyStatus, TooManyError) <==> Slots <= files
    ensures d.Fill? ==> d.name in Slots && d.name !in files
  {
    if SlotA !in files then Fill(SlotA)
    else if SlotB !in files then Fill(SlotB)
    else Reject(TooManyStatus, TooManyError)
  }

  lemma SlotsArePdfs()
    ensures EndsWith(SlotA, ".pdf") && EndsWith(SlotB, ".pdf")
  {
    assert SlotA[|SlotA| - 4..] == ".pdf";
    assert SlotB[|SlotB| - 4..] == ".pdf";
  }

  /** Only the two slot names matter: filtering to `.pdf` names changes nothing, and
      files not ending in `.pdf` never affect the decision. */
  lemma NonPdfFilesIrrelevant(dir: Dir, extra: set<string>)
    requires forall f :: f in extra ==> !EndsWith(f, ".pdf")
    ensures ChooseSlot(PdfFiles(dir)) == ChooseSlot(dir)
    ensures ChooseSlot(PdfFiles(dir + extra)) == ChooseSlot(PdfFiles(dir))
  {
    SlotsArePdfs();
  }

  /** The file multer stored: its client-side name and the extension of that name. */
  datatype Incoming = Incoming(originalName: string, ext: string)

  /** multer's temporary name: the upload time in milliseconds followed by the extension. */
  function TempName(now: nat, ext: string): (name: string) {
    NatToString(now) + ext
  }

  /** A temporary name starts with a digit, so it is never a slot name. */
  lemma TempNameIsNoSlot(now: nat, ext: string)
    ensures TempName(now, ext) !in Slots
  {
    assert TempName(now, ext)[0] == NatToString(now)[0];
    assert SlotA[0] == 'p' && SlotB[0] == 'p';
  }

  datatype Response = Uploaded(originalName: string, filename: string) | Error(status: nat, error: string)

  /** The directory once multer has stored the upload under its temporary name. */
  function Staged(dir: Dir, now: nat, file: Option<Incoming>): (staged: Dir) {
    if file.Some? then dir + {TempName(now, file.value.ext)} else dir
  }

  /** Storing the temporary file takes no slot. */
  lemma StagingKeepsSlots(dir: Dir, now: nat, file: Option<Incoming>)
    ensures SlotA in Staged(dir, now, file) <==> SlotA in dir
    ensures SlotB in Staged(dir, now, file) <==> SlotB in dir
  {
    if file.Some? {
      TempNameIsNoSlot(now, file.value.ext);
    }
  }

  /** One POST to `/upload` at time `now`, with `file` the uploaded part if any and
      `processed` whether the AI processing of the renamed file completed. multer has
      already stored the file under its temporary name when the directory is read; on
      acceptance the file is renamed into the chosen slot before processing, so a
      failed processing answers 500 yet keeps the slot. A refused upload leaves the
      temporary file behind. A request without a file reaches `req.file.path` and fails
      with status 500 unless it was refused first. */
  function HandleUpload(dir: Dir, now: nat, file: Option<Incoming>, processed: bool): (r: (Dir, Response))
    ensures r.1.Uploaded? <==> file.Some? && !(Slots <= dir) && processed
    ensures r.1 == Error(TooManyStatus, TooManyError) <==> Slots <= dir
    ensures r.1.Error? && r.1.status != TooManyStatus ==> r.1 == Error(FailedStatus, FailedError)
    ensures file.Some? && !(Slots <= dir) ==>
      var name := ChooseSlot(PdfFiles(dir)).name;
      && name !in dir
      && r.0 == (dir - {TempName(now, file.value.ext)}) + {name}
      && (r.1.Uploaded? ==> r.1 == Uploaded(file.value.originalName, name))
    ensures file.None? || Slots <= dir ==> r.0 == Staged(dir, now, file)
    ensures SlotFiles(r.0) == if file.Some? && !(Slots <= dir)
      then SlotFiles(dir) + {ChooseSlot(PdfFiles(dir)).name} else SlotFiles(dir)
  {
    var staged := Staged(dir, now, file);
    StagingKeepsSlots(dir, now, file);
    NonPdfFilesIrrelevant(staged, {});
    NonPdfFilesIrrelevant(dir, {});
    match ChooseSlot(PdfFiles(staged))
    case Reject(status, error) => (staged, Error(status, error))
    case Fill(name) =>
      if file.None? then (staged, Error(FailedStatus, FailedError))
      else
        var temp := TempName(now, file.value.ext);
        TempNameIsNoSlot(now, file.value.ext);
        assert ((staged - {temp}) + {name}) * Slots == dir * Slots + {name};
        var moved := (staged - {temp}) + {name};
        if processed then (moved, Uploaded(file.value.originalName, name))
        else (moved, Error(FailedStatus, FailedError))
  }

  /** Starting with neither slot taken, three uploads are placed in `pdf_a.pdf`, then
      `pdf_b.pdf`, and the third is refused with status 400. */
  lemma ThreeUploads(dir: Dir, t1: nat, t2: nat, t3: nat, f1: Incoming, f2: Incoming, f3: Incoming)
    requires SlotFiles(dir) == {}
    ensures var (d1, r1) := HandleUpload(dir, t1, Some(f1), true);
      var (d2, r2) := HandleUpload(d1, t2, Some(f2), true);
      var (d3, r3) := HandleUpload(d2, t3, Some(f3), true);
      && r1 == Uploaded(f1.originalName, SlotA)
      && r2 == Uploaded(f2.originalName, SlotB)
      && r3 == Error(TooManyStatus, TooManyError)
      && SlotFiles(d3) == Slots
  {
    assert SlotA in Slots && SlotB in Slots;
    assert SlotA in dir ==> SlotA in SlotFiles(dir);
    assert SlotB in dir ==> SlotB in SlotFiles(dir);
    var (d1, r1) := HandleUpload(dir, t1, Some(f1), true);
    assert SlotFiles(d1) == {SlotA};
    var (d2, r2) := HandleUpload(d1, t2, Some(f2), true);
    assert SlotFiles(d2) == Slots;
  }

  /** The rename comes before processing, so an upload whose processing fails is
      answered with 500 yet occupies `pdf_a.pdf`: the next upload lands in `pdf_b.pdf`. */
  lemma FailedProcessingTakesSlot(dir: Dir, t1: nat, t2: nat, f1: Incoming, f2: Incoming)
    requires SlotFiles(dir) == {}
    ensures var (d1, r1) := HandleUpload(dir, t1, Some(f1), false);
      var (d2, r2) := HandleUpload(d1, t2, Some(f2), true);
      && r1 == Error(FailedStatus, FailedError)
      && SlotA in d1
      && r2 == Uploaded(f2.originalName, SlotB)
  {
    assert SlotA in Slots && SlotB in Slots;
    assert SlotA in dir ==> SlotA in SlotFiles(dir);
    assert SlotB in dir ==> SlotB in SlotFiles(dir);
    var (d1, r1) := HandleUpload(dir, t1, Some(f1), false);
    assert SlotFiles(d1) == {SlotA};
  }

  /** Handling `requests` in order: the final directory and the responses. */
  function Run(dir: Dir, requests: seq<(nat, Option<Incoming>, bool)>): (r: (Dir, seq<Response>))
    ensures |r.1| == |requests|
    decreases |requests|
  {
    if requests == [] then (dir, [])
    else
      var (d1, r1) := HandleUpload(dir, requests[0].0, requests[0].1, requests[0].2);
      var (d, rs) := Run(d1, requests[1..]);
      (d, [r1] + rs)
  }

  /** Handling a first request, then the rest. */
  lemma RunCons(dir: Dir, requests: seq<(nat, Option<Incoming>, bool)>)
    requires requests != []
    ensures var (d1, r1) := HandleUpload(dir, requests[0].0, requests[0].1, requests[0].2);
      Run(dir, requests) == (Run(d1, requests[1..]).0, [r1] + Run(d1, requests[1..]).1)
  {
  }

  /** Across any sequence of requests the slot files only grow, and there are never
      more than the two slots. */
  lemma {:induction false} SlotFilesGrow(dir: Dir, requests: seq<(nat, Option<Incoming>, bool)>)
    ensures SlotFiles(dir) <= SlotFiles(Run(dir, requests).0) <= Slots
    decreases |requests|
  {
    if requests != [] {
      var (d1, r1) := HandleUpload(dir, requests[0].0, requests[0].1, requests[0].2);
      RunCons(dir, requests);
      SlotFilesGrow(d1, requests[1..]);
    }
  }

  /** Every accepted upload is given a slot that was free at the start and is still
      there at the end. */
  lemma {:induction false} AcceptedSlotsWereFree(dir: Dir, requests: seq<(nat, Option<Incoming>, bool)>)
    ensures var (final, rs) := Run(dir, requests);
      forall i :: 0 <= i < |rs| && rs[i].Uploaded? ==>
        rs[i].filename in Slots && rs[i].filename !in dir && rs[i].filename in final
    decreases |requests|
  {
    if requests != [] {
      var (d1, r1) := HandleUpload(dir, requests[0].0, requests[0].1, requests[0].2);
      RunCons(dir, requests);
      AcceptedSlotsWereFree(d1, requests[1..]);
      SlotFilesGrow(d1, requests[1..]);
      var (final, rest) := Run(d1, requests[1..]);
      var rs := [r1] + rest;
      forall i | 0 <= i < |rs| && rs[i].Uploaded?
        ensures rs[i].filename in Slots && rs[i].filename !in dir && rs[i].filename in final
      {
        if i == 0 {
          assert r1.filename in SlotFiles(d1);
        } else {
          assert rs[i] == rest[i - 1];
        }
      }
    }
  }

  /** No two accepted uploads share a slot. */
  lemma {:induction false} AcceptedSlotsDistinct(dir: Dir, requests: seq<(nat, Option<Incoming>, bool)>)
    ensures var rs := Run(dir, requests).1;
      forall i, j :: 0 <= i < j < |rs| && rs[i].Uploaded? && rs[j].Uploaded? ==>
        rs[i].filename != rs[j].filename
    decreases |requests|
  {
    if requests != [] {
      var (d1, r1) := HandleUpload(dir, requests[0].0, requests[0].1, requests[0].2);
      RunCons(dir, requests);
      AcceptedSlotsDistinct(d1, requests[1..]);
      AcceptedSlotsWereFree(d1, requests[1..]);
      var rest := Run(d1, requests[1..]).1;
      var rs := [r1] + rest;
      forall i, j | 0 <= i < j < |rs| && rs[i].Uploaded? && rs[j].Uploaded?
        ensures rs[i].filename != rs[j].filename
      {
        assert rs[j] == rest[j - 1];
        if i == 0 {
          assert r1.filename in d1;
        } else {
          assert rs[i] == rest[i - 1];
        }
      }
    }
  }
}
