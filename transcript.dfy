/**
 * `linkToText`: fetches a video's transcript, trying the locales en-US, en-GB,
 * en-IN and en in that order and keeping the first that succeeds, then joins the
 * segment texts with single spaces. The transcript service is the oracle `fetch`,
 * which answers one (link, locale) request with segments or an error.
 */
module Transcript {
  import opened Wrappers
  import opened Text

  datatype Segment = Segment(text: string, duration: int, offset: int)

  const Locales: seq<string> := ["en-US", "en-GB", "en-IN", "en"]

  /** The segments' `text` fields, in segment order. */
  function Texts(segments: seq<Segment>): (r: seq<string>)
    ensures |r| == |segments| && forall i :: 0 <= i < |r| ==> r[i] == segments[i].text
  {
    seq(|segments|, i requires 0 <= i < |segments| => segments[i].text)
  }

  /** The nested try/catch chain: each failure falls through to the next locale; the last one's error escapes. */
  function Fallback(link: string, locales: seq<string>, fetch: (string, string) -> Result<seq<Segment>, string>)
    : Result<seq<Segment>, string>
    requires |locales| > 0
  {
    var attempt := fetch(link, locales[0]);
    if attempt.Ok? || |locales| == 1 then attempt else Fallback(link, locales[1..], fetch)
  }

  /** The locales requested, in order: up to and including the first that succeeds. */
  function Attempted(link: string, locales: seq<string>, fetch: (string, string) -> Result<seq<Segment>, string>)
    : seq<string>
    requires |locales| > 0
  {
    if fetch(link, locales[0]).Ok? || |locales| == 1 then [locales[0]]
    else [locales[0]] + Attempted(link, locales[1..], fetch)
  }

  function LinkToText(link: string, fetch: (string, string) -> Result<seq<Segment>, string>): Result<string, string>
  {
    match Fallback(link, Locales, fetch)
    case Ok(segments) => Ok(Join(Texts(segments)))
    case Err(e) => Err(e)
  }

  /**
   * If locale k is the first to succeed, exactly the first k + 1 locales are
   * requested and the text is that answer's segments joined by spaces.
   */
  lemma {:induction false} FirstSuccessWins(link: string, fetch: (string, string) -> Result<seq<Segment>, string>, k: nat)
    requires k < |Locales|
    requires fetch(link, Locales[k]).Ok?
    requires forall j :: 0 <= j < k ==> fetch(link, Locales[j]).Err?
    ensures Attempted(link, Locales, fetch) == Locales[..k + 1]
    ensures LinkToText(link, fetch) == Ok(Join(Texts(fetch(link, Locales[k]).value)))
  {
    FirstSuccessFrom(link, Locales, fetch, k);
  }

  lemma {:induction false} FirstSuccessFrom(link: string, locales: seq<string>, fetch: (string, string) -> Result<seq<Segment>, string>, k: nat)
    requires k < |locales|
    requires fetch(link, locales[k]).Ok?
    requires forall j :: 0 <= j < k ==> fetch(link, locales[j]).Err?
    ensures Attempted(link, locales, fetch) == locales[..k + 1]
    ensures Fallback(link, locales, fetch) == fetch(link, locales[k])
  {
    if k > 0 {
      var tail := locales[1..];
      assert forall j :: 0 <= j < k - 1 ==> fetch(link, tail[j]).Err? by {
        forall j | 0 <= j < k - 1 ensures fetch(link, tail[j]).Err? {
          assert tail[j] == locales[j + 1];
        }
      }
      FirstSuccessFrom(link, tail, fetch, k - 1);
      assert [locales[0]] + tail[..k] == locales[..k + 1];
    }
  }

  /** When every locale fails, the error of the last attempt ("en") is the one rethrown, after all four attempts. */
  lemma AllLocalesFail(link: string, fetch: (string, string) -> Result<seq<Segment>, string>)
    requires forall j :: 0 <= j < |Locales| ==> fetch(link, Locales[j]).Err?
    ensures Attempted(link, Locales, fetch) == Locales
    ensures fetch(link, "en").Err? && LinkToText(link, fetch) == Err(fetch(link, "en").error)
  {
    AllFailFrom(link, Locales, fetch);
  }

  lemma {:induction false} AllFailFrom(link: string, locales: seq<string>, fetch: (string, string) -> Result<seq<Segment>, string>)
    requires |locales| > 0
    requires forall j :: 0 <= j < |locales| ==> fetch(link, locales[j]).Err?
    ensures Attempted(link, locales, fetch) == locales
    ensures Fallback(link, locales, fetch) == fetch(link, locales[|locales| - 1])
  {
    if |locales| > 1 {
      var tail := locales[1..];
      assert fetch(link, locales[0]).Err?;
      assert forall j :: 0 <= j < |tail| ==> fetch(link, tail[j]).Err? by {
        forall j | 0 <= j < |tail| ensures fetch(link, tail[j]).Err? {
          assert tail[j] == locales[j + 1];
        }
      }
      AllFailFrom(link, tail, fetch);
      assert [locales[0]] + tail == locales;
    }
  }

  /** The request succeeds exactly when some locale has a transcript. */
  lemma {:induction false} SucceedsIffSomeLocale(link: string, fetch: (string, string) -> Result<seq<Segment>, string>)
    ensures LinkToText(link, fetch).Ok? <==> exists j :: 0 <= j < |Locales| && fetch(link, Locales[j]).Ok?
  {
    if exists j :: 0 <= j < |Locales| && fetch(link, Locales[j]).Ok? {
      var k :| 0 <= k < |Locales| && fetch(link, Locales[k]).Ok? && forall j :: 0 <= j < k ==> fetch(link, Locales[j]).Err? by {
        var i :| 0 <= i < |Locales| && fetch(link, Locales[i]).Ok?;
        MinimalSuccess(link, fetch, i);
      }
      FirstSuccessWins(link, fetch, k);
    } else {
      AllLocalesFail(link, fetch);
    }
  }

  /** Some success at index i or before is the first success. */
  lemma {:induction false} MinimalSuccess(link: string, fetch: (string, string) -> Result<seq<Segment>, string>, i: nat)
    requires i < |Locales| && fetch(link, Locales[i]).Ok?
    ensures exists k :: 0 <= k <= i && fetch(link, Locales[k]).Ok? && forall j :: 0 <= j < k ==> fetch(link, Locales[j]).Err?
    decreases i
  {
    if j :| 0 <= j < i && fetch(link, Locales[j]).Ok? {
      MinimalSuccess(link, fetch, j);
    }
  }

  /** When no segment text contains a space, splitting the returned text on spaces gives back the segments' texts. */
  lemma SegmentsRecoverable(link: string, fetch: (string, string) -> Result<seq<Segment>, string>)
    requires Fallback(link, Locales, fetch).Ok?
    requires |Fallback(link, Locales, fetch).value| > 0
    requires forall s :: s in Fallback(link, Locales, fetch).value ==> NoSpace(s.text)
    ensures LinkToText(link, fetch).Ok?
    ensures Split(LinkToText(link, fetch).value) == Texts(Fallback(link, Locales, fetch).value)
  {
    var segments := Fallback(link, Locales, fetch).value;
    var texts := Texts(segments);
    forall i | 0 <= i < |texts| ensures NoSpace(texts[i]) {
      assert segments[i] in segments;
    }
    SplitJoin(texts);
  }

  /** US-English fails, UK-English answers ["a", "b"]: the text is "a b" after two requests. */
  lemma UkFallbackExample(link: string, fetch: (string, string) -> Result<seq<Segment>, string>)
    requires fetch(link, "en-US").Err?
    requires fetch(link, "en-GB") == Ok([Segment("a", 1, 0), Segment("b", 1, 1)])
    ensures Attempted(link, Locales, fetch) == ["en-US", "en-GB"]
    ensures LinkToText(link, fetch) == Ok("a b")
  {
    FirstSuccessWins(link, fetch, 1);
    assert Texts([Segment("a", 1, 0), Segment("b", 1, 1)]) == ["a", "b"];
    assert Locales[1] == "en-GB";
    assert ["a", "b"][1..] == ["b"];
    assert Join(["a", "b"]) == "a" + " " + "b" == "a b";
  }
}
