/**
 * The `chrome.downloads.onDeterminingFilename` listener, reduced to the
 * decision it hands to `suggest`: accept the browser's name, or override it
 * with a repaired path and ask for a uniquified name on collision.
 */
module DownloadListener {
  import opened JsText
  import opened SchoolDomain
  import opened FilenameFix
  import opened PathSegment

  /** The fields of the `DownloadItem` the listener reads. */
  datatype DownloadItem = DownloadItem(url: JsString, filename: JsString)

  /** `conflictAction: "uniquify"`: the only policy the listener requests. */
  datatype ConflictAction = Uniquify

  /** What the listener passes to `suggest`: nothing, or a replacement filename. */
  datatype Suggestion =
    | AcceptDefault
    | Override(filename: JsString, conflictAction: ConflictAction)

  /** The listener body, with the host's URL parser, NFC and EUC-KR decoder as parameters. */
  method OnDeterminingFilename(item: DownloadItem, hostname: JsString -> Option<JsString>,
                               nfc: Normalizer, eucKr: EucKrDecoder)
    returns (suggestion: Suggestion)
    ensures !IsFromSchool(item.url, hostname) ==> suggestion == AcceptDefault
    ensures suggestion.Override? <==>
      IsFromSchool(item.url, hostname) &&
      RepairFilename(LastSegment(item.filename), nfc, eucKr) != LastSegment(item.filename)
    ensures suggestion.Override? ==>
      suggestion.conflictAction == Uniquify &&
      suggestion.filename == ReplaceLastPathSegment(item.filename, RepairFilename(LastSegment(item.filename), nfc, eucKr))
    ensures suggestion.Override? ==>
      suggestion.filename == Directory(item.filename) + RepairFilename(LastSegment(item.filename), nfc, eucKr) &&
      suggestion.filename != item.filename
  {
    if !IsFromSchool(item.url, hostname) {
      return AcceptDefault;
    }

    var pathParts := Split(item.filename);
    var originalBase := pathParts[|pathParts| - 1];

    var fixedBase := FixBrokenKoreanFilename(originalBase, nfc, eucKr);

    if fixedBase == originalBase {
      return AcceptDefault;
    }

    var newPath := ReplaceLastPathSegment(item.filename, fixedBase);
    ReplaceKeepsDirectory(item.filename, fixedBase);
    LastSegmentFollowsDirectory(item.filename);
    ghost var dir := Directory(item.filename);
    assert newPath[|dir|..] == fixedBase && item.filename[|dir|..] == originalBase;
    return Override(newPath, Uniquify);
  }
}
