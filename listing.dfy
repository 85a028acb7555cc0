/**
  The two pure choices the movie pages make before calling the metadata
  service or rendering: which list a `/movies/<movies_type>` request shows,
  and which video the detail page features.
*/
module Listing {
  import opened Queries

  datatype ListKind = Popular | TopRated

  /** The `page` query argument as it is passed on: the raw text when given, otherwise the integer 1. */
  datatype Page = PageText(text: string) | FirstPage

  datatype ListChoice = ListChoice(kind: ListKind, page: Page)

  /**
    The list the handler fetches: top-rated exactly for the path segment
    "toprated", popular for "popular" and for anything else; the page is the
    query argument when present and 1 otherwise.
  */
  function ChooseList(moviesType: string, page: Option<string>): (r: ListChoice)
    ensures r.kind == TopRated <==> moviesType == "toprated"
    ensures r.kind == Popular <==> moviesType != "toprated"
    ensures page.Some? ==> r.page == PageText(page.value)
    ensures page.None? ==> r.page == FirstPage
  {
    var p := match page
      case Some(text) => PageText(text)
      case None => FirstPage;
    if moviesType == "popular" then ListChoice(Popular, p)
    else if moviesType == "toprated" then ListChoice(TopRated, p)
    else ListChoice(Popular, p)
  }

  /** One video of a movie as the metadata service returns it; None stands for a missing field. */
  datatype Video = Video(key: Option<string>, kind: Option<string>, official: Option<bool>)

  /**
    The trailer filter: the type must be present and equal "Trailer", and the
    official flag must be present and true; a missing field never passes.
  */
  function IsOfficialTrailer(v: Video): (r: bool)
    ensures r <==> v.kind == Some("Trailer") && v.official == Some(true)
  {
    var kind := match v.kind case Some(t) => t case None => "";
    var official := match v.official case Some(b) => b case None => false;
    kind == "Trailer" && official
  }

  /** Video `i` is an official trailer and no earlier video is. */
  ghost predicate FirstOfficialTrailerAt(videos: seq<Video>, i: int)
  {
    && 0 <= i < |videos| && IsOfficialTrailer(videos[i])
    && forall j :: 0 <= j < i ==> !IsOfficialTrailer(videos[j])
  }

  /**
    The featured video key: the `key` of the head of the list of official
    trailers, which is the key of the first official trailer in the order the
    service returned them. The handler fails when there is none (and, before
    that, when the video list is empty), so its caller must supply one.
  */
  function SelectTrailerKey(videos: seq<Video>): (r: Option<string>)
    requires HasKey(videos, IsOfficialTrailer, true)
    ensures exists i :: FirstOfficialTrailerAt(videos, i) && r == videos[i].key
  {
    var trailers := Where(videos, IsOfficialTrailer, true);
    WhereHeadIsFirst(videos, IsOfficialTrailer, true);
    var i := FirstIndex(videos, IsOfficialTrailer, true).value;
    assert FirstOfficialTrailerAt(videos, i);
    trailers[0].key
  }
}
