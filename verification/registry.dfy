/** The uploaded-file list: which chosen files are accepted, and how one is
    removed by its position. */
module Registry {

  /** The part of a browser File the component reads: its name (shown and
      quoted in answers), its size in bytes and its media type. */
  datatype FileDesc = FileDesc(name: string, size: nat, mediaType: string)

  /** What the file input hands the upload handler: `event.target.files`,
      which may be null. */
  datatype Selection = NoFileList | FileList(candidates: seq<FileDesc>)

  const PdfMediaType: string := "application/pdf"

  /** The upload filter: the media type must be exactly "application/pdf". */
  predicate IsPdf(f: FileDesc)
  {
    f.mediaType == PdfMediaType
  }

  /** `Array.from(files).filter(file => file.type === "application/pdf")`:
      the PDFs of the batch, in batch order. Every element is a PDF and every
      PDF of the batch is kept. */
  function Pdfs(batch: seq<FileDesc>): (r: seq<FileDesc>)
    ensures |r| <= |batch|
    ensures forall k :: 0 <= k < |r| ==> IsPdf(r[k])
    ensures forall k :: 0 <= k < |batch| && IsPdf(batch[k]) ==> batch[k] in r
  {
    if batch == [] then []
    else (if IsPdf(batch[0]) then [batch[0]] else []) + Pdfs(batch[1..])
  }

  /** Filtering a concatenation filters each part and keeps them in order. */
  lemma {:induction false} PdfsAppend(a: seq<FileDesc>, b: seq<FileDesc>)
    ensures Pdfs(a + b) == Pdfs(a) + Pdfs(b)
  {
    if a == [] {
      assert a + b == b;
    } else {
      assert (a + b)[0] == a[0];
      assert (a + b)[1..] == a[1..] + b;
      PdfsAppend(a[1..], b);
    }
  }

  /** One more candidate at the end of the batch is kept, at the end, exactly
      when it is a PDF: with Pdfs([]) == [] this determines the filter, so the
      accepted files are the PDFs in input order. */
  lemma {:induction false} PdfsSnoc(batch: seq<FileDesc>, f: FileDesc)
    ensures Pdfs(batch + [f]) == Pdfs(batch) + (if IsPdf(f) then [f] else [])
  {
    PdfsAppend(batch, [f]);
    assert [f][1..] == [];
  }

  /** Each file is accepted as often as it occurs in the batch if it is a PDF,
      and never otherwise. */
  lemma {:induction false} PdfsCount(batch: seq<FileDesc>, f: FileDesc)
    ensures multiset(Pdfs(batch))[f] == if IsPdf(f) then multiset(batch)[f] else 0
  {
    if batch != [] {
      assert batch == [batch[0]] + batch[1..];
      PdfsCount(batch[1..], f);
    }
  }

  /** A batch of PDFs only is accepted whole. */
  lemma {:induction false} PdfsAllPdf(batch: seq<FileDesc>)
    requires forall k :: 0 <= k < |batch| ==> IsPdf(batch[k])
    ensures Pdfs(batch) == batch
  {
    if batch != [] {
      PdfsAllPdf(batch[1..]);
    }
  }

  /** The filtered list of `prev.filter((_, index) => index !== k)` for the
      elements of s, where s starts at position base of the whole list. */
  function KeepOthers<T>(s: seq<T>, k: int, base: int): (r: seq<T>)
    ensures r == if base <= k < base + |s| then s[..k - base] + s[k - base + 1..] else s
  {
    if s == [] then []
    else
      var rest := KeepOthers(s[1..], k, base + 1);
      var r := (if base == k then [] else [s[0]]) + rest;
      assert base < k < base + |s| ==> r == [s[0]] + (s[1..][..k - base - 1] + s[1..][k - base..]);
      assert base < k < base + |s| ==> s[..k - base] == [s[0]] + s[1..][..k - base - 1];
      r
  }

  /** Removal by position, as the delete button does it: a position inside
      the list drops exactly that element and keeps the others in order; any
      other position leaves the list as it was. */
  function RemoveAt<T>(s: seq<T>, k: int): (r: seq<T>)
    ensures 0 <= k < |s| ==> |r| == |s| - 1 && r == s[..k] + s[k + 1..]
    ensures !(0 <= k < |s|) ==> r == s
  {
    KeepOthers(s, k, 0)
  }
}
