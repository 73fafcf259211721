/**
  The classification half of aria2's BtPostDownloadHandler: whether a
  finished download is a .torrent file whose contents name further work.
  The model covers single-file contexts, the only ones built here: the
  handler judges a download by that file entry, and recomputes its answer
  from the entry's current fields on every call.
 */
module BtPostDownload {

  /** The recognised metadata file extension (case-sensitive). */
  const TorrentExtension := ".torrent"

  /** The recognised metadata MIME type (matched exactly). */
  const TorrentContentType := "application/x-bittorrent"

  datatype FileEntry = FileEntry(path: string, length: int, contentType: string)

  datatype DownloadContext = DownloadContext(pieceLength: int, fileEntries: seq<FileEntry>)

  /** A single-file context, as DownloadContext(pieceLength, totalLength, path) builds it. */
  function NewDownloadContext(pieceLength: int, totalLength: int, path: string): (ctx: DownloadContext)
    ensures |ctx.fileEntries| == 1 && ctx.pieceLength == pieceLength
    ensures ctx.fileEntries[0].path == path && ctx.fileEntries[0].length == totalLength
    ensures ctx.fileEntries[0].contentType == ""
  {
    DownloadContext(pieceLength, [FileEntry(path, totalLength, "")])
  }

  /** FileEntry::setPath on the first file entry. */
  function SetFirstPath(ctx: DownloadContext, path: string): (ctx': DownloadContext)
    requires |ctx.fileEntries| > 0
    ensures |ctx'.fileEntries| == |ctx.fileEntries| && ctx'.pieceLength == ctx.pieceLength
    ensures ctx'.fileEntries[0].path == path
    ensures ctx'.fileEntries[0].contentType == ctx.fileEntries[0].contentType
    ensures ctx'.fileEntries[0].length == ctx.fileEntries[0].length
    ensures ctx'.fileEntries[1..] == ctx.fileEntries[1..]
  {
    ctx.(fileEntries := ctx.fileEntries[0 := ctx.fileEntries[0].(path := path)])
  }

  /** FileEntry::setContentType on the first file entry. */
  function SetFirstContentType(ctx: DownloadContext, contentType: string): (ctx': DownloadContext)
    requires |ctx.fileEntries| > 0
    ensures |ctx'.fileEntries| == |ctx.fileEntries| && ctx'.pieceLength == ctx.pieceLength
    ensures ctx'.fileEntries[0].contentType == contentType
    ensures ctx'.fileEntries[0].path == ctx.fileEntries[0].path
    ensures ctx'.fileEntries[0].length == ctx.fileEntries[0].length
    ensures ctx'.fileEntries[1..] == ctx.fileEntries[1..]
  {
    ctx.(fileEntries := ctx.fileEntries[0 := ctx.fileEntries[0].(contentType := contentType)])
  }

  predicate EndsWith(s: string, suffix: string) {
    |suffix| <= |s| && s[|s| - |suffix|..] == suffix
  }

  /** A suffix test agrees with its definition by concatenation: s ends with suffix iff s is some stem followed by suffix. */
  lemma EndsWithIff(s: string, suffix: string)
    ensures EndsWith(s, suffix) <==> exists stem :: s == stem + suffix
  {
    if EndsWith(s, suffix) {
      var stem := s[..|s| - |suffix|];
      assert s == stem + suffix;
    }
    if exists stem :: s == stem + suffix {
      var stem :| s == stem + suffix;
      assert s[|s| - |suffix|..] == suffix;
    }
  }

  /**
    Whether the handler accepts the finished download whose context is `ctx`:
    exactly when its first file is named <stem>.torrent or its declared
    content type is application/x-bittorrent; either test alone suffices.
   */
  function CanHandle(ctx: DownloadContext): (accepted: bool)
    requires |ctx.fileEntries| == 1
    ensures accepted <==>
              (exists stem :: ctx.fileEntries[0].path == stem + TorrentExtension)
              || ctx.fileEntries[0].contentType == TorrentContentType
  {
    var first := ctx.fileEntries[0];
    EndsWithIff(first.path, TorrentExtension);
    EndsWith(first.path, TorrentExtension) || first.contentType == TorrentContentType
  }

  /**
    The handler has no memory: after setting the first entry's path, or its
    content type, its answer is the one for the new field values.
   */
  lemma CanHandleRecomputed(ctx: DownloadContext, path: string, contentType: string)
    requires |ctx.fileEntries| == 1
    ensures CanHandle(SetFirstPath(ctx, path)) <==>
              EndsWith(path, TorrentExtension) || ctx.fileEntries[0].contentType == TorrentContentType
    ensures CanHandle(SetFirstContentType(ctx, contentType)) <==>
              EndsWith(ctx.fileEntries[0].path, TorrentExtension) || contentType == TorrentContentType
  {
  }

  /**
    testCanHandle_extension: "test.torrent" is accepted; once the path becomes
    "test.torrent2" it is not, although ".torrent" still occurs in it.
   */
  lemma CanHandleExtensionTest()
    ensures CanHandle(NewDownloadContext(0, 0, "test.torrent"))
    ensures "test.torrent2"[4..12] == TorrentExtension
    ensures !CanHandle(SetFirstPath(NewDownloadContext(0, 0, "test.torrent"), "test.torrent2"))
  {
  }

  /**
    testCanHandle_contentType: a path with no extension is accepted on the
    content type application/x-bittorrent alone, and not once the content
    type becomes application/octet-stream.
   */
  lemma CanHandleContentTypeTest()
    ensures var ctx := SetFirstContentType(NewDownloadContext(0, 0, "test"), TorrentContentType);
            CanHandle(ctx) && !CanHandle(SetFirstContentType(ctx, "application/octet-stream"))
  {
  }
}
