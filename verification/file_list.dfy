/** The logic of the dashboard's file list (`FileList.tsx`): the content type
    the viewer gives a downloaded file, the icon shown beside each file, the
    viewer's image/PDF classification, and the local list update after a
    delete. */
module FileList {
  import opened Seqs
  import opened Text
  import opened MedicalFiles

  const PdfType: string := "application/pdf"
  const JpegType: string := "image/jpeg"
  const PngType: string := "image/png"
  const GifType: string := "image/gif"
  const OctetStreamType: string := "application/octet-stream"

  /** The last-segment values the viewer shows as images. */
  const ImageSegments: set<string> := {"jpg", "jpeg", "png", "gif"}

  /** `handleView`'s choice of content type for an extension. */
  function TypeForSegment(ext: string): (t: string)
    ensures t in {PdfType, JpegType, PngType, GifType, OctetStreamType}
    ensures t == PdfType <==> ext == "pdf"
    ensures t == JpegType <==> ext in {"jpg", "jpeg"}
    ensures t == PngType <==> ext == "png"
    ensures t == GifType <==> ext == "gif"
  {
    if ext == "pdf" then PdfType
    else if ext in ["jpg", "jpeg"] then JpegType
    else if ext == "png" then PngType
    else if ext == "gif" then GifType
    else OctetStreamType
  }

  /** `handleView`: the content type chosen from the part of the lower-cased
      original name after its last '.'. */
  function ContentTypeFor(originalFileName: string): (t: string)
    ensures t in {PdfType, JpegType, PngType, GifType, OctetStreamType}
    ensures var ext := LastSegment(Lower(originalFileName));
            && (t == PdfType <==> ext == "pdf")
            && (t == JpegType <==> ext in {"jpg", "jpeg"})
            && (t == PngType <==> ext == "png")
            && (t == GifType <==> ext == "gif")
  {
    TypeForSegment(LastSegment(Lower(originalFileName)))
  }

  /** `isImageFile`. */
  predicate IsImageFile(t: string) {
    StartsWith(t, "image/")
  }

  /** `isPdfFile`. */
  predicate IsPdfFile(t: string) {
    t == PdfType
  }

  /** The viewer renders an image exactly for the image segments, a PDF frame
      exactly for "pdf", and offers only a download for everything else. */
  lemma SegmentClassification(ext: string)
    ensures IsImageFile(TypeForSegment(ext)) <==> ext in ImageSegments
    ensures IsPdfFile(TypeForSegment(ext)) <==> ext == "pdf"
    ensures !IsImageFile(TypeForSegment(ext)) && !IsPdfFile(TypeForSegment(ext))
            <==> TypeForSegment(ext) == OctetStreamType
  {
    assert StartsWith(JpegType, "image/") && StartsWith(PngType, "image/") && StartsWith(GifType, "image/");
    assert PdfType[0] == 'a' && OctetStreamType[0] == 'a';
  }

  /** `SegmentClassification` for a file name. */
  lemma ViewerClassification(name: string)
    ensures IsImageFile(ContentTypeFor(name)) <==> LastSegment(Lower(name)) in ImageSegments
    ensures IsPdfFile(ContentTypeFor(name)) <==> LastSegment(Lower(name)) == "pdf"
    ensures !IsImageFile(ContentTypeFor(name)) && !IsPdfFile(ContentTypeFor(name))
            <==> ContentTypeFor(name) == OctetStreamType
  {
    SegmentClassification(LastSegment(Lower(name)));
  }

  /** Only the recognised words get a specific content type. */
  lemma KnownSegments(ext: string)
    ensures TypeForSegment(ext) != OctetStreamType <==> ext in ImageSegments + {"pdf"}
  {
  }

  /** A name with no '.' is its own "extension": only a name that is exactly
      one of the recognised words, in any case, gets a specific type. */
  lemma NameWithoutDot(name: string)
    requires forall j :: 0 <= j < |name| ==> name[j] != '.'
    ensures ContentTypeFor(name) != OctetStreamType <==> Lower(name) in ImageSegments + {"pdf"}
  {
  }

  /** Every file the upload endpoint accepts opens in the viewer: a PDF frame
      for ".pdf", an image for the others. */
  lemma AcceptedUploadIsPreviewable(name: string)
    requires Lower(GetExtension(name)) in UploadExtensions
    ensures IsPdfFile(ContentTypeFor(name)) <==> Lower(GetExtension(name)) == ".pdf"
    ensures IsImageFile(ContentTypeFor(name)) <==> Lower(GetExtension(name)) != ".pdf"
  {
    assert GetExtension(name) != "";
    LastSegmentOfExtension(name);
    ViewerClassification(name);
    var e := Lower(GetExtension(name));
    assert e == ".pdf" || e == ".jpg" || e == ".jpeg" || e == ".png";
    assert e[1..] == (if e == ".pdf" then "pdf" else if e == ".jpg" then "jpg" else if e == ".jpeg" then "jpeg" else "png");
  }

  /** The icons `getFileIcon` chooses among: the page-facing emoji (U+1F4C4)
      for a document, the framed picture (U+1F5BC) for an image, and the file
      folder (U+1F4C1) for anything else. */
  datatype Icon = Document | Picture | Folder

  /** The image endings `getFileIcon` tests for, anchored at the end. */
  const IconImageEndings: seq<string> := [".jpg", ".jpeg", ".png", ".gif"]

  /** `getFileIcon`: a document if ".pdf" occurs anywhere in the lower-cased
      name, else a picture if it ends in an image extension, else a folder. */
  function FileIcon(fileName: string): (i: Icon)
    ensures i == Document <==> exists k :: OccursAt(Lower(fileName), ".pdf", k)
    ensures i == Picture <==>
              && (forall k :: !OccursAt(Lower(fileName), ".pdf", k))
              && exists e :: e in IconImageEndings && EndsWith(Lower(fileName), e)
  {
    var l := Lower(fileName);
    if Contains(l, ".pdf") then Document
    else if exists e :: e in IconImageEndings && EndsWith(l, e) then Picture
    else Folder
  }

  /** The image endings, written out. */
  lemma IconEndings(l: string)
    ensures (exists e :: e in IconImageEndings && EndsWith(l, e))
            <==> EndsWith(l, ".jpg") || EndsWith(l, ".jpeg") || EndsWith(l, ".png") || EndsWith(l, ".gif")
  {
  }

  /** For a string holding a '.', ending in one of the icon's image endings
      is having one of the viewer's image segments last. */
  lemma ImageEndingIsImageSegment(l: string)
    requires exists j :: 0 <= j < |l| && l[j] == '.'
    ensures (exists e :: e in IconImageEndings && EndsWith(l, e)) <==> LastSegment(l) in ImageSegments
  {
    IconEndings(l);
    EndsWithExtension(l, ".jpg");
    EndsWithExtension(l, ".jpeg");
    EndsWithExtension(l, ".png");
    EndsWithExtension(l, ".gif");
    assert ".jpg"[1..] == "jpg" && ".jpeg"[1..] == "jpeg" && ".png"[1..] == "png" && ".gif"[1..] == "gif";
  }

  /** For a name with a '.' and no ".pdf" in it, the list shows a picture
      exactly when the viewer renders an image. */
  lemma PictureIconMatchesViewer(name: string)
    requires exists j :: 0 <= j < |name| && name[j] == '.'
    requires forall k :: !OccursAt(Lower(name), ".pdf", k)
    ensures FileIcon(name) == Picture <==> IsImageFile(ContentTypeFor(name))
  {
    var j :| 0 <= j < |name| && name[j] == '.';
    LowerKeepsDots(name);
    assert Lower(name)[j] == '.';
    ImageEndingIsImageSegment(Lower(name));
    ViewerClassification(name);
  }

  /** A file the viewer opens as a PDF gets the document icon, provided its
      name holds a '.'. */
  lemma PdfViewerImpliesDocumentIcon(name: string)
    requires exists j :: 0 <= j < |name| && name[j] == '.'
    requires IsPdfFile(ContentTypeFor(name))
    ensures FileIcon(name) == Document
  {
    var l := Lower(name);
    var j :| 0 <= j < |name| && name[j] == '.';
    LowerKeepsDots(name);
    assert l[j] == '.';
    assert LastSegment(l) == "pdf";
    EndsWithExtension(l, ".pdf");
    assert OccursAt(l, ".pdf", |l| - 4);
  }

  /** The converse fails: ".pdf" anywhere wins the icon, so a PNG whose name
      contains ".pdf" is listed as a document but viewed as an image. */
  lemma DocumentIconForNonPdf()
    ensures FileIcon("scan.pdf.png") == Document
    ensures ContentTypeFor("scan.pdf.png") == PngType
  {
    var l := Lower("scan.pdf.png");
    assert l == "scan.pdf.png";
    assert OccursAt(l, ".pdf", 4);
    LastSegmentAfterDot("scan.pdf", "png");
    assert "scan.pdf" + "." + "png" == "scan.pdf.png";
  }

  /** The filter `file.id !== fileId`. */
  function IdIsNot(id: int): MedicalFile -> bool {
    (f: MedicalFile) => f.id != id
  }

  /** `handleDelete`'s local update: the list without the deleted id. */
  function RemoveById(files: seq<MedicalFile>, id: int): (r: seq<MedicalFile>)
    ensures forall f :: f in r ==> f.id != id
    ensures forall f :: multiset(r)[f] == if f.id == id then 0 else multiset(files)[f]
  {
    FilterMultiset(files, IdIsNot(id));
    var r := Filter(files, IdIsNot(id));
    assert forall f :: f in r ==> f in multiset(r);
    r
  }

  /** The local removal keeps the survivors in their order: it works piecewise
      on any split of the list. */
  lemma RemoveByIdKeepsOrder(a: seq<MedicalFile>, b: seq<MedicalFile>, id: int)
    ensures RemoveById(a + b, id) == RemoveById(a, id) + RemoveById(b, id)
  {
    FilterConcat(a, b, IdIsNot(id));
  }

  /** After a successful delete, the list the client computes locally is the
      list the server would now return. */
  lemma ClientListMatchesServer(s: FileStore, caller: int, id: int)
    requires ValidFiles(s)
    requires DeleteFile(s, caller, id).response.Ok?
    ensures RemoveById(GetUserFiles(s, caller), id) == GetUserFiles(DeleteFile(s, caller, id).after, caller)
  {
    var t := DeleteFile(s, caller, id).after;
    var k :| && 0 <= k < |s.files| && s.files[k].id == id && s.files[k].userId == caller
             && t.files == RemoveAt(s.files, k);
    forall j | 0 <= j < |s.files| && j != k
      ensures IdIsNot(id)(s.files[j])
    {
      if j < k {
        assert s.files[j].id != s.files[k].id;
      } else {
        assert s.files[k].id != s.files[j].id;
      }
    }
    FilterDropsOnly(s.files, k, IdIsNot(id));
    FilterSortDesc(Filter(s.files, Owner(caller)), UploadTime, IdIsNot(id));
    FilterCommutes(s.files, Owner(caller), IdIsNot(id));
  }
}
