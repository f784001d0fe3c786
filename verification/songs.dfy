/** The Song record shared by search results, playlists and scraped playlists. */
module Songs {
  import opened CStrings

  /** The page every video id is played from. */
  const WatchUrlPrefix := "https://www.youtube.com/watch?v="

  function WatchUrl(id: string): (url: string)
    ensures |url| == |WatchUrlPrefix| + |id|
    ensures url[..|WatchUrlPrefix|] == WatchUrlPrefix && url[|WatchUrlPrefix|..] == id
  {
    WatchUrlPrefix + id
  }

  /** Song URLs are formatted into a 256-byte buffer. */
  const UrlBuffer := 256

  /** The URL stored with a song: the watch URL, as much of it as fits. */
  function PlayableUrl(id: string): (url: string)
    ensures |url| < UrlBuffer && |url| <= |WatchUrl(id)| && url == WatchUrl(id)[..|url|]
    ensures |url| == if |WatchUrl(id)| < UrlBuffer then |WatchUrl(id)| else UrlBuffer - 1
    ensures |WatchUrl(id)| < UrlBuffer ==> url == WatchUrl(id)
  {
    Truncate(WatchUrl(id), UrlBuffer - 1)
  }

  /** A song: display title, video id (the key), playable URL, duration in
    * seconds (0 when unknown). */
  datatype Song = Song(title: string, videoId: string, url: string, duration: int)
}
