// Steam app ids inside launch targets: getAppIdFromValue, normalizeExecPath
// and isUriLaunchPath, electron/main.js lines 93-110 and 180-182.

module Maybe {
  datatype Option<+T> = None | Some(value: T)
}

module SteamId {
  import opened Text
  import opened Maybe

  /** The scheme and path that start a Steam launch URI. */
  const SteamUriPrefix: string := "steam://rungameid/"

  /** What precedes the app id in a Steam store page address. */
  const StoreUrlMarker: string := "store.steampowered.com/app/"

  /** `/^steam:\/\/rungameid\/(\d+)/i` matches: the prefix in any letter case
      at the start, then at least one digit. */
  predicate IsSteamUri(raw: string): (r: bool)
    ensures r ==> raw != [] && !IsDigits(raw)
  {
    if MatchesAt(raw, 0, SteamUriPrefix) && |SteamUriPrefix| < |raw| && IsDigit(raw[|SteamUriPrefix|]) then
      assert AsciiLower(raw[0 + 0]) == SteamUriPrefix[0];
      true
    else false
  }

  /** The launch-URI prefix is matched in any letter case: written in
      capitals it still matches. */
  lemma {:induction false} SteamUriPrefixUpperCase()
    ensures MatchesAt("STEAM://RUNGAMEID/", 0, SteamUriPrefix)
  {
    var s := "STEAM://RUNGAMEID/";
    forall k | 0 <= k < |SteamUriPrefix| ensures AsciiLower(s[0 + k]) == SteamUriPrefix[k] {
    }
  }

  /** `/store\.steampowered\.com\/app\/(\d+)/i` can match starting at index
      `i`: the marker in any letter case, then at least one digit. */
  predicate StoreUrlAt(raw: string, i: nat): (r: bool)
    ensures r ==> i < |raw| && !IsDigits(raw)
  {
    if MatchesAt(raw, i, StoreUrlMarker) && i + |StoreUrlMarker| < |raw| && IsDigit(raw[i + |StoreUrlMarker|]) then
      assert AsciiLower(raw[i + 0]) == StoreUrlMarker[0];
      true
    else false
  }

  /** The leftmost index from `from` on where the store pattern matches,
      which is where a regular-expression search finds it. */
  function FindStoreUrl(raw: string, from: nat): (r: Option<nat>)
    ensures r.Some? ==> from <= r.value && StoreUrlAt(raw, r.value)
    ensures r.Some? ==> forall j :: from <= j < r.value ==> !StoreUrlAt(raw, j)
    ensures r.None? ==> forall j :: from <= j ==> !StoreUrlAt(raw, j)
    decreases |raw| - from
  {
    if from >= |raw| then None
    else if StoreUrlAt(raw, from) then Some(from)
    else FindStoreUrl(raw, from + 1)
  }

  /** getAppIdFromValue: the Steam app id a string carries, or the empty
      string. On the trimmed value it tries, in this order, the whole value
      being digits, a `steam://rungameid/` URI at the start, and the leftmost
      store page address; the first that matches gives the id. The result is
      always empty or a run of digits. */
  function GetAppIdFromValue(value: string): (r: string)
    ensures r == [] || IsDigits(r)
  {
    AppIdOfTrimmed(Trim(value))
  }

  /** The matching part of `GetAppIdFromValue`, on the already trimmed value. */
  function AppIdOfTrimmed(raw: string): (r: string)
    ensures r == [] || IsDigits(r)
  {
    if raw == [] then []
    else if IsDigits(raw) then raw
    else if IsSteamUri(raw) then LeadingDigits(raw[|SteamUriPrefix|..])
    else match FindStoreUrl(raw, 0)
      case Some(i) => LeadingDigits(raw[i + |StoreUrlMarker|..])
      case None => []
  }

  /** Surrounding whitespace never changes the id found. */
  lemma {:induction false} AppIdIgnoresTrim(value: string)
    ensures GetAppIdFromValue(Trim(value)) == GetAppIdFromValue(value)
  {
    TrimIdempotent(value);
  }

  /** Text that is not digits, not a Steam launch URI, and holds no store
      page address anywhere carries no id. */
  lemma {:induction false} AppIdAbsent(value: string)
    requires !IsDigits(Trim(value)) && !IsSteamUri(Trim(value))
    requires forall i :: 0 <= i < |Trim(value)| ==> !StoreUrlAt(Trim(value), i)
    ensures GetAppIdFromValue(value) == []
  {
  }

  /** A bare run of digits is its own app id. */
  lemma {:induction false} AppIdOfDigits(d: string)
    requires IsDigits(d)
    ensures GetAppIdFromValue(d) == d
  {
  }

  /** The id is read back out of a Steam launch URI, whatever the letter case
      of its prefix and whatever non-digit text follows the id. */
  lemma {:induction false} AppIdOfSteamUri(prefix: string, d: string, tail: string)
    requires |prefix| == |SteamUriPrefix| && MatchesAt(prefix, 0, SteamUriPrefix)
    requires IsDigits(d)
    requires tail == [] || (!IsDigit(tail[0]) && !IsSpace(tail[|tail| - 1]))
    ensures GetAppIdFromValue(prefix + d + tail) == d
  {
    var s := prefix + d + tail;
    SteamUriParts(prefix, d, tail);
    assert IsTrimmed(s) by {
      assert s[0] == prefix[0];
      if tail == [] {
        assert s[|s| - 1] == d[|d| - 1];
      } else {
        assert s[|s| - 1] == tail[|tail| - 1];
      }
    }
    assert AppIdOfTrimmed(s) == LeadingDigits(d + tail);
    LeadingDigitsOf(d, tail);
  }

  /** A launch URI prefix followed by digits is a Steam launch URI, what
      follows the prefix is the digits and the tail, and the whole is not a
      bare run of digits. */
  lemma {:induction false} SteamUriParts(prefix: string, d: string, tail: string)
    requires |prefix| == |SteamUriPrefix| && MatchesAt(prefix, 0, SteamUriPrefix)
    requires IsDigits(d)
    ensures var s := prefix + d + tail;
      IsSteamUri(s) && s[|SteamUriPrefix|..] == d + tail && !IsDigits(s) && !IsSpace(s[0])
  {
    var s := prefix + d + tail;
    assert MatchesAt(s, 0, SteamUriPrefix) by {
      forall k | 0 <= k < |SteamUriPrefix| ensures AsciiLower(s[k]) == SteamUriPrefix[k] {
        assert s[k] == prefix[k];
      }
    }
    assert s[|SteamUriPrefix|..] == d + tail;
    assert AsciiLower(s[0]) == SteamUriPrefix[0] == 's';
  }

  /** The id is read out of a store page address when no earlier part of the
      string already matches and the string is not a Steam launch URI. */
  lemma {:induction false} AppIdOfStoreUrl(before: string, marker: string, d: string, tail: string)
    requires |marker| == |StoreUrlMarker| && MatchesAt(marker, 0, StoreUrlMarker)
    requires IsDigits(d)
    requires tail == [] || !IsDigit(tail[0])
    requires IsTrimmed(before + marker + d + tail)
    requires !IsSteamUri(before + marker + d + tail)
    requires forall j :: 0 <= j < |before| ==> !StoreUrlAt(before + marker + d + tail, j)
    ensures GetAppIdFromValue(before + marker + d + tail) == d
  {
    var s := before + marker + d + tail;
    var i := |before|;
    StoreUrlParts(before, marker, d, tail);
    var found := FindStoreUrl(s, 0);
    if found.None? || found.value != i {
      assert false;
    }
    assert AppIdOfTrimmed(s) == LeadingDigits(d + tail);
    LeadingDigitsOf(d, tail);
  }

  /** A marker followed by digits matches where the marker starts, what
      follows the marker is the digits and the tail, and the whole is not a
      bare run of digits. */
  lemma {:induction false} StoreUrlParts(before: string, marker: string, d: string, tail: string)
    requires |marker| == |StoreUrlMarker| && MatchesAt(marker, 0, StoreUrlMarker)
    requires IsDigits(d)
    ensures var s := before + marker + d + tail;
      StoreUrlAt(s, |before|) && s[|before| + |StoreUrlMarker|..] == d + tail && !IsDigits(s)
  {
    var s := before + marker + d + tail;
    var i := |before|;
    assert MatchesAt(s, i, StoreUrlMarker) by {
      forall k | 0 <= k < |StoreUrlMarker| ensures AsciiLower(s[i + k]) == StoreUrlMarker[k] {
        assert s[i + k] == marker[k];
      }
    }
    assert s[i + |StoreUrlMarker|..] == d + tail;
    assert !IsDigits(s) by {
      assert AsciiLower(s[i + 0]) == StoreUrlMarker[0] == 's';
    }
  }

  /** The canonical launch URI of an app id. */
  function SteamUri(id: string): (r: string)
    ensures IsDigits(id) ==> IsSteamUri(r)
  {
    SteamUriPrefix + id
  }

  lemma {:induction false} SteamUriTrimmed(id: string)
    requires IsDigits(id)
    ensures IsTrimmed(SteamUri(id))
  {
    var u := SteamUri(id);
    assert u[0] == SteamUriPrefix[0] == 's';
    assert u[|u| - 1] == id[|id| - 1];
  }

  /** The id of a canonical launch URI is the id it was made from. */
  lemma {:induction false} SteamUriRoundTrip(id: string)
    requires IsDigits(id)
    ensures GetAppIdFromValue(SteamUri(id)) == id
  {
    AppIdOfSteamUri(SteamUriPrefix, id, []);
    assert SteamUriPrefix + id + [] == SteamUri(id);
  }

  /** normalizeExecPath: an app id found in the explicit Steam id field wins,
      then one found in the path itself; either gives the canonical
      `steam://rungameid/<id>`. Without an id the trimmed path is kept. */
  function NormalizeExecPath(execPath: string, steamAppId: string): (r: string)
    ensures IsTrimmed(r)
    ensures GetAppIdFromValue(steamAppId) != [] ==> r == SteamUri(GetAppIdFromValue(steamAppId))
    ensures GetAppIdFromValue(steamAppId) == [] && GetAppIdFromValue(execPath) != [] ==>
      r == SteamUri(GetAppIdFromValue(execPath))
    ensures GetAppIdFromValue(steamAppId) == [] && GetAppIdFromValue(execPath) == [] ==>
      r == Trim(execPath)
  {
    var trimmed := Trim(execPath);
    AppIdIgnoresTrim(execPath);
    var fromField := GetAppIdFromValue(steamAppId);
    var appId := if fromField != [] then fromField else GetAppIdFromValue(trimmed);
    if appId != [] then
      SteamUriTrimmed(appId);
      SteamUri(appId)
    else trimmed
  }

  /** A normalized path is either the launch URI of the id it carries, or it
      carries no id at all. */
  lemma {:induction false} NormalizedIdIsCanonical(execPath: string, steamAppId: string)
    ensures var r := NormalizeExecPath(execPath, steamAppId);
      GetAppIdFromValue(r) == [] || r == SteamUri(GetAppIdFromValue(r))
  {
    var a := GetAppIdFromValue(steamAppId);
    var p := GetAppIdFromValue(execPath);
    if a != [] {
      SteamUriRoundTrip(a);
    } else if p != [] {
      SteamUriRoundTrip(p);
    } else {
      TrimIdempotent(execPath);
    }
  }

  /** Normalizing twice changes nothing: the path normalized once, read again
      without an explicit id, is the same path. */
  lemma {:induction false} NormalizeIdempotent(execPath: string, steamAppId: string)
    ensures NormalizeExecPath(NormalizeExecPath(execPath, steamAppId), []) == NormalizeExecPath(execPath, steamAppId)
  {
    var r := NormalizeExecPath(execPath, steamAppId);
    NormalizedIdIsCanonical(execPath, steamAppId);
    assert GetAppIdFromValue([]) == [];
    assert Trim(r) == r;
  }

  /** isUriLaunchPath: `/^steam:\/\//i` or `/^https?:\/\//i`. True exactly
      when the path starts with `steam://`, `http://` or `https://` in any
      letter case. */
  function IsUriLaunchPath(execPath: string): (r: bool)
    ensures r <==> (MatchesAt(execPath, 0, "steam://") || MatchesAt(execPath, 0, "http://")
                    || MatchesAt(execPath, 0, "https://"))
  {
    MatchesAtAppend(execPath, 0, "http", "://");
    MatchesAtAppend(execPath, 0, "http", "s://");
    assert "http" + "://" == "http://" && "http" + "s://" == "https://";
    MatchesAt(execPath, 0, "steam://")
    || (MatchesAt(execPath, 0, "http") && (MatchesAt(execPath, 4, "://") || MatchesAt(execPath, 4, "s://")))
  }

  /** Every canonical launch URI is opened as a URI. */
  lemma {:induction false} SteamUriIsUri(id: string)
    ensures IsUriLaunchPath(SteamUri(id))
  {
    var u := SteamUri(id);
    forall k | 0 <= k < |"steam://"| ensures AsciiLower(u[k]) == "steam://"[k] {
      assert u[k] == SteamUriPrefix[k] == "steam://"[k];
    }
    assert MatchesAt(u, 0, "steam://");
  }

  /** A path that an app id was found for is opened as a URI. */
  lemma {:induction false} SteamTargetIsUri(execPath: string, steamAppId: string)
    requires GetAppIdFromValue(steamAppId) != [] || GetAppIdFromValue(execPath) != []
    ensures IsUriLaunchPath(NormalizeExecPath(execPath, steamAppId))
  {
    if GetAppIdFromValue(steamAppId) != [] {
      SteamUriIsUri(GetAppIdFromValue(steamAppId));
    } else {
      SteamUriIsUri(GetAppIdFromValue(execPath));
    }
  }
}
