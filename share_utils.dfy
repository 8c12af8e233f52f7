/** `shareUtils(apod)` (NeoReport/utils/shareUtils.js): downloads the picture into the cache
    directory and opens the share sheet with it. The download and the share sheet are parameters;
    the result records the calls made and the alert shown. */
module ShareUtils {
  import opened Wrappers
  import opened ApodData
  import opened Notices
  import Text

  const NoDataMessage := "No APOD data to share"
  const SharingFailedTitle := "Sharing Failed"

  datatype ShareRequest = ShareRequest(title: string, message: string, url: string)

  /** The download requested (source URI, target path), the share sheet opened and the alert
      shown, each absent when it did not happen. */
  datatype ShareRun = ShareRun(download: Option<(string, string)>, shared: Option<ShareRequest>, alert: Option<Alert>)

  /** An optional string JavaScript treats as true: present and not empty. */
  predicate Truthy(o: Option<string>) {
    o.Some? && o.value != ""
  }

  /** `apod.hdurl || apod.url`. */
  function ImageUri(a: Apod): (uri: string)
    ensures Truthy(a.hdurl) ==> uri == a.hdurl.value
    ensures !Truthy(a.hdurl) ==> uri == a.url
  {
    if Truthy(a.hdurl) then a.hdurl.value else a.url
  }

  /** `imageUri.split("/").pop()`. */
  function FileName(imageUri: string): (name: string)
    ensures Text.IsLastSegment(imageUri, '/', name)
  {
    Text.LastSegment(imageUri, '/')
  }

  /** `${title}\n\n${explanation}`. */
  function ShareMessage(a: Apod): (message: string)
    ensures |message| == |a.title| + 2 + |a.explanation|
    ensures message[..|a.title|] == a.title && message[|a.title|..|a.title| + 2] == "\n\n"
    ensures message[|a.title| + 2..] == a.explanation
  {
    a.title + "\n\n" + a.explanation
  }

  function Failure(message: string): Alert {
    Alert(SharingFailedTitle, Some(message))
  }

  /** `download(uri, path)` gives the local URI or the error message; `share(request)` gives the
      error message when the share sheet rejects. Every error ends in the alert; none reaches the
      caller. */
  function ShareApod(item: Option<Apod>, cacheDirectory: string,
                     download: (string, string) -> Result<string, string>,
                     share: ShareRequest -> Option<string>): (run: ShareRun)
    ensures item == None ==> run == ShareRun(None, None, Some(Failure(NoDataMessage)))
    ensures item != None ==>
      var uri := ImageUri(item.value); var name := FileName(uri);
      && run.download == Some((uri, cacheDirectory + name))
      && (run.shared != None <==> download(uri, cacheDirectory + name).Ok?)
      && (run.shared != None ==>
            run.shared == Some(ShareRequest(item.value.title, ShareMessage(item.value), download(uri, cacheDirectory + name).value)))
    ensures run.alert == None <==> run.shared != None && share(run.shared.value) == None
    ensures run.alert != None ==> run.alert.value.title == SharingFailedTitle
    ensures item != None && download(ImageUri(item.value), cacheDirectory + FileName(ImageUri(item.value))).Err? ==>
      run.alert == Some(Failure(download(ImageUri(item.value), cacheDirectory + FileName(ImageUri(item.value))).error))
    ensures run.shared != None && share(run.shared.value).Some? ==>
      run.alert == Some(Failure(share(run.shared.value).value))
  {
    match item
    case None => ShareRun(None, None, Some(Failure(NoDataMessage)))
    case Some(a) =>
      var imageUri := ImageUri(a);
      var filePath := cacheDirectory + FileName(imageUri);
      match download(imageUri, filePath)
      case Err(m) => ShareRun(Some((imageUri, filePath)), None, Some(Failure(m)))
      case Ok(localUri) =>
        var request := ShareRequest(a.title, ShareMessage(a), localUri);
        match share(request)
        case Some(m) => ShareRun(Some((imageUri, filePath)), Some(request), Some(Failure(m)))
        case None => ShareRun(Some((imageUri, filePath)), Some(request), None)
  }

  /** The downloaded file keeps the text after the URI's last `/` as its name, inside the cache
      directory. */
  lemma DownloadTarget(a: Apod, cacheDirectory: string, download: (string, string) -> Result<string, string>,
                       share: ShareRequest -> Option<string>)
    ensures var run := ShareApod(Some(a), cacheDirectory, download, share);
      var path := run.download.value.1; var uri := ImageUri(a);
      && run.download.value.0 == uri
      && path[..|cacheDirectory|] == cacheDirectory
      && '/' !in path[|cacheDirectory|..]
      && path[|cacheDirectory|..] == uri[|uri| - (|path| - |cacheDirectory|)..]
  {
    var run := ShareApod(Some(a), cacheDirectory, download, share);
    var name := FileName(ImageUri(a));
    assert run.download.value.1 == cacheDirectory + name;
    assert (cacheDirectory + name)[|cacheDirectory|..] == name;
  }
}
