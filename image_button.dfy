/** The save-to-gallery button (NeoReport/components/buttons/ImageButton.js). The media library,
    the file system and the clock are parameters; the handler's result is the sequence of platform
    calls and messages it issues. */
module ImageButton {
  import opened Wrappers
  import opened Decimal
  import opened Notices
  import Text

  const AlbumName := "NASA APOD"
  const Granted := "granted"
  const PermissionTitle := "Sorry, we need media library permissions to save images!"
  const SavedMessage := "Image saved to your gallery!"
  const CanceledMessage := "Canceled"
  const FailedMessage := "Failed to save the image. Please try again."

  datatype Asset = Asset(id: string)
  datatype Album = Album(id: string)

  /** One call of the handler into the platform, or one message it shows. */
  datatype Effect =
    | RequestPermission
    | ShowAlert(alert: Alert)
    | Download(url: string, fileUri: string)
    | CreateAsset(fileUri: string)
    | GetAlbum(name: string)
    | CreateAlbum(name: string, asset: Asset, copyAsset: bool)
    | AddToAlbum(assets: seq<Asset>, album: Album, copyAssets: bool)
    | ShowToast(message: string)

  /** What each platform call resolves to (`Ok`) or the message of the error it rejects with. */
  datatype MediaPlatform = MediaPlatform(
    permission: Result<string, string>,
    download: (string, string) -> Result<string, string>,
    createAsset: string -> Result<Asset, string>,
    getAlbum: string -> Result<Option<Album>, string>,
    createAlbum: (string, Asset) -> Result<Album, string>,
    addToAlbum: (Asset, Album) -> Option<string>)

  /** `image.split("/").pop() || `apod-${Date.now()}.jpg``. */
  function FileName(image: string, timestamp: nat): (name: string)
    ensures name != [] && '/' !in name
    ensures Text.LastSegment(image, '/') != [] ==> name == Text.LastSegment(image, '/')
    ensures Text.LastSegment(image, '/') == [] ==> name == "apod-" + NatToString(timestamp) + ".jpg"
  {
    var last := Text.LastSegment(image, '/');
    if last != [] then last
    else
      var name := "apod-" + NatToString(timestamp) + ".jpg";
      assert forall i :: 0 <= i < |name| ==> name[i] != '/';
      name
  }

  /** The toast the catch block shows for an error message. */
  function Classify(message: string): (toast: string)
    ensures toast == CanceledMessage <==> Text.Includes(message, "denied") || Text.Includes(message, "cancel")
    ensures toast != CanceledMessage ==> toast == FailedMessage
  {
    if Text.Includes(message, "denied") || Text.Includes(message, "cancel") then CanceledMessage else FailedMessage
  }

  /** An error is reported as a cancellation exactly when "denied" or "cancel" occurs somewhere in
      its message. */
  lemma ClassifyByOccurrence(message: string)
    ensures Classify(message) == CanceledMessage <==>
      (exists i :: Text.OccursAt(message, "denied", i)) || (exists i :: Text.OccursAt(message, "cancel", i))
  {
    Text.IncludesOccurrence(message, "denied");
    Text.IncludesOccurrence(message, "cancel");
  }

  /** The specification of the handler: the calls it makes, in order. */
  function SaveEffects(image: string, cacheDirectory: string, timestamp: nat, p: MediaPlatform): seq<Effect> {
    [RequestPermission] +
    match p.permission
    case Err(m) => [ShowToast(Classify(m))]
    case Ok(status) =>
      if status != Granted then [ShowAlert(Alert(PermissionTitle, None))]
      else
        var target := cacheDirectory + FileName(image, timestamp);
        if Text.StartsWith(image, "http") then
          [Download(image, target)] +
          match p.download(image, target)
          case Err(m) => [ShowToast(Classify(m))]
          case Ok(uri) => SaveAsset(uri, p)
        else
          SaveAsset(target, p)
  }

  /** The calls after the file is in place: the asset, the album lookup, then creating the album
      with the asset or adding the asset to it. */
  function SaveAsset(fileUri: string, p: MediaPlatform): seq<Effect> {
    [CreateAsset(fileUri)] +
    match p.createAsset(fileUri)
    case Err(m) => [ShowToast(Classify(m))]
    case Ok(asset) =>
      [GetAlbum(AlbumName)] +
      match p.getAlbum(AlbumName)
      case Err(m) => [ShowToast(Classify(m))]
      case Ok(None) =>
        [CreateAlbum(AlbumName, asset, false)] +
        (match p.createAlbum(AlbumName, asset)
         case Err(m) => [ShowToast(Classify(m))]
         case Ok(_) => [ShowToast(SavedMessage)])
      case Ok(Some(album)) =>
        [AddToAlbum([asset], album, false)] +
        (match p.addToAlbum(asset, album)
         case Some(m) => [ShowToast(Classify(m))]
         case None => [ShowToast(SavedMessage)])
  }

  predicate IsSaveCall(e: Effect) {
    e.Download? || e.CreateAsset? || e.GetAlbum? || e.CreateAlbum? || e.AddToAlbum?
  }

  predicate IsAlbumCall(e: Effect) {
    e.CreateAlbum? || e.AddToAlbum?
  }

  function CountAlbumCalls(effects: seq<Effect>): nat {
    if effects == [] then 0
    else (if IsAlbumCall(effects[0]) then 1 else 0) + CountAlbumCalls(effects[1..])
  }

  lemma {:induction false} CountAlbumCallsAppend(a: seq<Effect>, b: seq<Effect>)
    ensures CountAlbumCalls(a + b) == CountAlbumCalls(a) + CountAlbumCalls(b)
  {
    if a != [] {
      assert (a + b)[1..] == a[1..] + b;
      CountAlbumCallsAppend(a[1..], b);
    } else {
      assert a + b == b;
    }
  }

  /** Without the "granted" status nothing is downloaded or saved: the handler shows the
      permission alert and stops. */
  lemma PermissionRefusedSavesNothing(image: string, cacheDirectory: string, timestamp: nat, p: MediaPlatform)
    requires p.permission.Ok? && p.permission.value != Granted
    ensures var effects := SaveEffects(image, cacheDirectory, timestamp, p);
      effects == [RequestPermission, ShowAlert(Alert(PermissionTitle, None))]
      && forall i :: 0 <= i < |effects| ==> !IsSaveCall(effects[i])
  {
  }

  /** With permission, a download happens exactly when the URL starts with "http", from that URL
      into the cache directory under the derived file name. */
  lemma DownloadOnlyForHttp(image: string, cacheDirectory: string, timestamp: nat, p: MediaPlatform)
    requires p.permission == Ok(Granted)
    ensures var effects := SaveEffects(image, cacheDirectory, timestamp, p);
      && ((exists i :: 0 <= i < |effects| && effects[i].Download?) <==> Text.StartsWith(image, "http"))
      && (Text.StartsWith(image, "http") ==> effects[1] == Download(image, cacheDirectory + FileName(image, timestamp)))
  {
    var effects := SaveEffects(image, cacheDirectory, timestamp, p);
    if !Text.StartsWith(image, "http") {
      NoDownloadInSaveAsset(cacheDirectory + FileName(image, timestamp), p);
      assert effects == [RequestPermission] + SaveAsset(cacheDirectory + FileName(image, timestamp), p);
    } else {
      assert effects[1].Download?;
    }
  }

  lemma NoDownloadInSaveAsset(fileUri: string, p: MediaPlatform)
    ensures forall i :: 0 <= i < |SaveAsset(fileUri, p)| ==> !SaveAsset(fileUri, p)[i].Download?
  {
  }

  /** The asset is created from the downloaded file for an "http" URL and from the cache path
      otherwise. */
  lemma AssetSource(image: string, cacheDirectory: string, timestamp: nat, p: MediaPlatform)
    requires p.permission == Ok(Granted)
    ensures var effects := SaveEffects(image, cacheDirectory, timestamp, p);
      var target := cacheDirectory + FileName(image, timestamp);
      && (!Text.StartsWith(image, "http") ==> effects[1] == CreateAsset(target))
      && (Text.StartsWith(image, "http") && p.download(image, target).Ok? ==>
            effects[2] == CreateAsset(p.download(image, target).value))
  {
  }

  /** At most one album call is made: it creates the album with the asset when the lookup finds
      none, and adds the asset to the existing album otherwise. */
  lemma {:induction false} AtMostOneAlbumCall(fileUri: string, p: MediaPlatform)
    ensures CountAlbumCalls(SaveAsset(fileUri, p)) <= 1
    ensures p.createAsset(fileUri).Ok? && p.getAlbum(AlbumName).Ok? ==>
      var asset := p.createAsset(fileUri).value;
      CountAlbumCalls(SaveAsset(fileUri, p)) == 1
      && SaveAsset(fileUri, p)[2] == match p.getAlbum(AlbumName).value
        case None => CreateAlbum(AlbumName, asset, false)
        case Some(album) => AddToAlbum([asset], album, false)
  {
    var effects := SaveAsset(fileUri, p);
    var first := [CreateAsset(fileUri)];
    assert CountAlbumCalls(first) == 0;
    CountAlbumCallsAppend(first, effects[1..]);
    assert effects == first + effects[1..];
    match p.createAsset(fileUri)
    case Err(m) =>
      assert CountAlbumCalls(effects[1..]) == 0;
    case Ok(asset) =>
      var second := [GetAlbum(AlbumName)];
      assert effects[1..] == second + effects[2..];
      CountAlbumCallsAppend(second, effects[2..]);
      assert CountAlbumCalls(second) == 0;
      match p.getAlbum(AlbumName)
      case Err(m) =>
        assert CountAlbumCalls(effects[2..]) == 0;
      case Ok(found) =>
        var rest := effects[3..];
        assert effects[2..] == [effects[2]] + rest;
        CountAlbumCallsAppend([effects[2]], rest);
        assert |rest| == 1 && rest[0].ShowToast?;
        assert CountAlbumCalls(rest) == CountAlbumCalls(rest[1..]);
        assert rest[1..] == [];
  }

  /** The effects end in a toast and show no toast before it. */
  predicate EndsInOneToast(effects: seq<Effect>) {
    && |effects| >= 1
    && effects[|effects| - 1].ShowToast?
    && (forall i :: 0 <= i < |effects| - 1 ==> !effects[i].ShowToast?)
    && effects[|effects| - 1].message in {SavedMessage, CanceledMessage, FailedMessage}
  }

  /** The message of the final toast. */
  function FinalMessage(effects: seq<Effect>): string
    requires EndsInOneToast(effects)
  {
    effects[|effects| - 1].message
  }

  /** Every gallery call resolves: the asset is created, the lookup answers, and the album is
      created with the asset or the asset is added to the album found. */
  predicate GallerySucceeds(fileUri: string, p: MediaPlatform) {
    && p.createAsset(fileUri).Ok?
    && p.getAlbum(AlbumName).Ok?
    && match p.getAlbum(AlbumName).value
       case None => p.createAlbum(AlbumName, p.createAsset(fileUri).value).Ok?
       case Some(album) => p.addToAlbum(p.createAsset(fileUri).value, album) == None
  }

  /** Every call of the handler resolves: permission is granted, a remote image downloads, and the
      gallery calls on the resulting file resolve. */
  predicate SaveSucceeds(image: string, cacheDirectory: string, timestamp: nat, p: MediaPlatform) {
    var target := cacheDirectory + FileName(image, timestamp);
    && p.permission == Ok(Granted)
    && if Text.StartsWith(image, "http") then
         p.download(image, target).Ok? && GallerySucceeds(p.download(image, target).value, p)
       else
         GallerySucceeds(target, p)
  }

  lemma PrependKeepsOneToast(e: Effect, rest: seq<Effect>)
    requires !e.ShowToast? && EndsInOneToast(rest)
    ensures EndsInOneToast([e] + rest) && FinalMessage([e] + rest) == FinalMessage(rest)
  {
    var all := [e] + rest;
    forall i | 0 <= i < |all| - 1
      ensures !all[i].ShowToast?
    {
      if i > 0 { assert all[i] == rest[i - 1]; }
    }
  }

  /** The gallery steps end in exactly one toast, "Image saved" exactly when every gallery call
      resolved. */
  lemma SaveAssetEndsInOneToast(fileUri: string, p: MediaPlatform)
    ensures EndsInOneToast(SaveAsset(fileUri, p))
    ensures FinalMessage(SaveAsset(fileUri, p)) == SavedMessage <==> GallerySucceeds(fileUri, p)
  {
    match p.createAsset(fileUri)
    case Err(m) =>
    case Ok(asset) =>
      var afterLookup: seq<Effect> := match p.getAlbum(AlbumName)
        case Err(m) => [ShowToast(Classify(m))]
        case Ok(None) =>
          [CreateAlbum(AlbumName, asset, false)] +
          (match p.createAlbum(AlbumName, asset)
           case Err(m) => [ShowToast(Classify(m))]
           case Ok(_) => [ShowToast(SavedMessage)])
        case Ok(Some(album)) =>
          [AddToAlbum([asset], album, false)] +
          (match p.addToAlbum(asset, album)
           case Some(m) => [ShowToast(Classify(m))]
           case None => [ShowToast(SavedMessage)]);
      assert EndsInOneToast(afterLookup);
      PrependKeepsOneToast(GetAlbum(AlbumName), afterLookup);
      PrependKeepsOneToast(CreateAsset(fileUri), [GetAlbum(AlbumName)] + afterLookup);
      assert SaveAsset(fileUri, p) == [CreateAsset(fileUri)] + ([GetAlbum(AlbumName)] + afterLookup);
  }

  /** Every run past the permission dialog ends in exactly one toast: "Image saved" exactly when
      every call resolved, otherwise the classification of the error ("Canceled" or the failure
      text). */
  lemma EndsWithToast(image: string, cacheDirectory: string, timestamp: nat, p: MediaPlatform)
    requires p.permission.Err? || p.permission == Ok(Granted)
    ensures EndsInOneToast(SaveEffects(image, cacheDirectory, timestamp, p))
    ensures FinalMessage(SaveEffects(image, cacheDirectory, timestamp, p)) == SavedMessage
      <==> SaveSucceeds(image, cacheDirectory, timestamp, p)
  {
    var target := cacheDirectory + FileName(image, timestamp);
    if p.permission.Ok? {
      SaveAssetEndsInOneToast(target, p);
      if Text.StartsWith(image, "http") {
        var afterDownload: seq<Effect> := match p.download(image, target)
          case Err(m) => [ShowToast(Classify(m))]
          case Ok(uri) => SaveAsset(uri, p);
        if p.download(image, target).Ok? {
          SaveAssetEndsInOneToast(p.download(image, target).value, p);
        }
        PrependKeepsOneToast(Download(image, target), afterDownload);
        PrependKeepsOneToast(RequestPermission, [Download(image, target)] + afterDownload);
      } else {
        PrependKeepsOneToast(RequestPermission, SaveAsset(target, p));
      }
    }
  }

  /** The gallery part of the handler: create the asset, look the album up and either create it
      with the asset or add the asset to it; an error ends the run with its toast. */
  method SaveToGallery(fileUri: string, p: MediaPlatform) returns (effects: seq<Effect>)
    ensures effects == SaveAsset(fileUri, p)
  {
    effects := [CreateAsset(fileUri)];
    var asset := p.createAsset(fileUri);
    if asset.Err? {
      return effects + [ShowToast(Classify(asset.error))];
    }
    effects := effects + [GetAlbum(AlbumName)];
    var lookup := p.getAlbum(AlbumName);
    if lookup.Err? {
      return effects + [ShowToast(Classify(lookup.error))];
    }
    var album := lookup.value;
    if album == None {
      effects := effects + [CreateAlbum(AlbumName, asset.value, false)];
      var created := p.createAlbum(AlbumName, asset.value);
      if created.Err? {
        return effects + [ShowToast(Classify(created.error))];
      }
      album := Some(created.value);
    } else {
      effects := effects + [AddToAlbum([asset.value], album.value, false)];
      var added := p.addToAlbum(asset.value, album.value);
      if added.Some? {
        return effects + [ShowToast(Classify(added.value))];
      }
    }
    effects := effects + [ShowToast(SavedMessage)];
  }

  /** The button's state: the image URL it was given and whether a save is running. */
  class SaveButton {
    const image: string
    var loading: bool

    constructor(image: string)
      ensures this.image == image && !loading
    {
      this.image := image;
      loading := false;
    }

    /** `downloadImageButtonHandler()`: `loading` is set for the run and is false afterwards on
        every path, the early return for a refused permission included. */
    method DownloadImageButtonHandler(cacheDirectory: string, timestamp: nat, p: MediaPlatform)
      returns (effects: seq<Effect>)
      modifies this`loading
      ensures !loading
      ensures effects == SaveEffects(image, cacheDirectory, timestamp, p)
    {
      loading := true;
      effects := [RequestPermission];
      var status := p.permission;
      if status.Err? {
        effects := effects + [ShowToast(Classify(status.error))];
      } else if status.value != Granted {
        effects := effects + [ShowAlert(Alert(PermissionTitle, None))];
        loading := false;
        return;
      } else {
        var fileName := FileName(image, timestamp);
        var fileUri := cacheDirectory + fileName;
        var downloadFailure: Option<string> := None;
        if Text.StartsWith(image, "http") {
          effects := effects + [Download(image, fileUri)];
          var downloaded := p.download(image, fileUri);
          if downloaded.Err? {
            downloadFailure := Some(downloaded.error);
          } else {
            fileUri := downloaded.value;
          }
        }
        if downloadFailure.Some? {
          effects := effects + [ShowToast(Classify(downloadFailure.value))];
        } else {
          var saved := SaveToGallery(fileUri, p);
          effects := effects + saved;
        }
      }
      loading := false;
    }
  }
}
