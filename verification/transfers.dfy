/**
  Pending file transfers. A download or upload request is stored under a fresh
  reference number, which the client presents on the transfer connection; the
  connection looks the request up by number and kind, and removes it when done.
*/
module Transfers {
  import opened Wrappers
  import opened Paths

  type uint32 = x: int | 0 <= x < 0x1_0000_0000

  datatype Request = FileDownload(root: Path, path: Path) | FileUpload(root: Path, path: Path)

  datatype TransferError = InvalidRequest

  /** The stored requests and the counter the next reference number is taken from. */
  datatype Requests = Requests(requests: map<uint32, Request>, next: uint32)

  /** `Requests::new`. */
  const NoRequests: Requests := Requests(map[], 0)

  /** Every stored number was handed out before the counter's current value. */
  predicate Fresh(r: Requests)
  {
    forall k :: k in r.requests ==> k < r.next
  }

  /** `next_id`: the counter's value, then the counter moves on (a 32-bit increment that panics on overflow). */
  function NextId(r: Requests): (res: (uint32, Requests))
    requires r.next < 0xffff_ffff
    ensures res.0 == r.next && res.1.next == r.next + 1 && res.1.requests == r.requests
    ensures Fresh(r) ==> Fresh(res.1) && res.0 !in r.requests
  {
    (r.next, r.(next := r.next + 1))
  }

  function Add(r: Requests, req: Request): (res: (uint32, Requests))
    requires r.next < 0xffff_ffff
    ensures res.0 == r.next && res.1.next == r.next + 1
    ensures res.1.requests == r.requests[res.0 := req]
    ensures Fresh(r) ==> Fresh(res.1) && res.0 !in r.requests
  {
    var (id, r') := NextId(r);
    (id, r'.(requests := r'.requests[id := req]))
  }

  /** `add_download`. */
  function AddDownload(r: Requests, root: Path, path: Path): (res: (uint32, Requests))
    requires r.next < 0xffff_ffff
    ensures res.0 == r.next && res.1.requests == r.requests[res.0 := FileDownload(root, path)]
    ensures Fresh(r) ==> Fresh(res.1) && res.0 !in r.requests
  {
    Add(r, FileDownload(root, path))
  }

  /** `add_upload`. */
  function AddUpload(r: Requests, root: Path, path: Path): (res: (uint32, Requests))
    requires r.next < 0xffff_ffff
    ensures res.0 == r.next && res.1.requests == r.requests[res.0 := FileUpload(root, path)]
    ensures Fresh(r) ==> Fresh(res.1) && res.0 !in r.requests
  {
    Add(r, FileUpload(root, path))
  }

  /** `get`. */
  function Get(r: Requests, id: uint32): (res: Option<Request>)
    ensures res.Some? <==> id in r.requests
    ensures res.Some? ==> res.value == r.requests[id]
  {
    if id in r.requests then Some(r.requests[id]) else None
  }

  /** `remove`, also what a completed transfer does: only the given number goes. */
  function Remove(r: Requests, id: uint32): (res: Requests)
    ensures res.next == r.next && id !in res.requests
    ensures forall k :: k != id ==> (k in res.requests <==> k in r.requests)
    ensures forall k :: k != id && k in r.requests ==> res.requests[k] == r.requests[k]
    ensures Fresh(r) ==> Fresh(res)
  {
    r.(requests := r.requests - {id})
  }

  /** `get_file_download`: the path of a stored download, else `InvalidRequest`. */
  function GetFileDownload(r: Requests, id: uint32): (res: Result<Path, TransferError>)
    ensures res.Ok? <==> id in r.requests && r.requests[id].FileDownload?
    ensures res.Ok? ==> res.value == r.requests[id].path
  {
    match Get(r, id)
    case Some(FileDownload(_, path)) => Ok(path)
    case _ => Err(InvalidRequest)
  }

  /** `get_file_upload`: the path of a stored upload, else `InvalidRequest`. */
  function GetFileUpload(r: Requests, id: uint32): (res: Result<Path, TransferError>)
    ensures res.Ok? <==> id in r.requests && r.requests[id].FileUpload?
    ensures res.Ok? ==> res.value == r.requests[id].path
  {
    match Get(r, id)
    case Some(FileUpload(_, path)) => Ok(path)
    case _ => Err(InvalidRequest)
  }

  /** A number handed out for a download finds that download, and never an upload. */
  lemma DownloadLookup(r: Requests, root: Path, path: Path)
    requires r.next < 0xffff_ffff
    ensures var (id, r') := AddDownload(r, root, path);
      GetFileDownload(r', id) == Ok(path) && GetFileUpload(r', id) == Err(InvalidRequest)
  {
  }

  /** A number handed out for an upload finds that upload, and never a download. */
  lemma UploadLookup(r: Requests, root: Path, path: Path)
    requires r.next < 0xffff_ffff
    ensures var (id, r') := AddUpload(r, root, path);
      GetFileUpload(r', id) == Ok(path) && GetFileDownload(r', id) == Err(InvalidRequest)
  {
  }

  /** After completion the number is no longer valid for either kind. */
  lemma CompletedIsInvalid(r: Requests, id: uint32)
    ensures GetFileDownload(Remove(r, id), id) == Err(InvalidRequest)
    ensures GetFileUpload(Remove(r, id), id) == Err(InvalidRequest)
  {
  }

  /** Two successive additions hand out different numbers, and the first request survives the second. */
  lemma DistinctNumbers(r: Requests, a: Request, b: Request)
    requires r.next + 1 < 0xffff_ffff
    ensures var (i, r1) := Add(r, a); var (j, r2) := Add(r1, b);
      i != j && Get(r2, i) == Some(a) && Get(r2, j) == Some(b)
  {
  }
}
