/**
  The news board: articles are kept as text in posting order and served newest first,
  joined by a separator. The text encoding the server is configured with is a pair of
  parameters (bytes to text when posting, text to bytes when serving).
*/
module News {
  import opened Wire

  const Separator: string := "\r--\r"

  datatype News = News(articles: seq<string>)

  /** `News::new`. */
  const NoNews: News := News([])

  /** `News::post`: the decoded article goes at the end; earlier articles stay as they were. */
  function Post(n: News, article: Bytes, decode: Bytes -> string): (r: News)
    ensures |r.articles| == |n.articles| + 1
    ensures r.articles[..|n.articles|] == n.articles && r.articles[|n.articles|] == decode(article)
  {
    News(n.articles + [decode(article)])
  }

  function Reverse<T>(s: seq<T>): (r: seq<T>)
    ensures |r| == |s| && forall i :: 0 <= i < |s| ==> r[i] == s[|s| - 1 - i]
  {
    if |s| == 0 then [] else [s[|s| - 1]] + Reverse(s[..|s| - 1])
  }

  /** `join(SEPARATOR)`. */
  function Join(xs: seq<string>): string
  {
    if |xs| == 0 then ""
    else if |xs| == 1 then xs[0]
    else xs[0] + Separator + Join(xs[1..])
  }

  /** The joined text is the articles plus one separator between each adjacent pair. */
  lemma {:induction false} JoinLength(xs: seq<string>)
    requires |xs| > 0
    ensures |Join(xs)| == SumLengths(xs) + |Separator| * (|xs| - 1)
  {
    if |xs| > 1 {
      JoinLength(xs[1..]);
    }
  }

  function SumLengths(xs: seq<string>): nat
  {
    if |xs| == 0 then 0 else |xs[0]| + SumLengths(xs[1..])
  }

  /** `News::all`: newest first, separated, then encoded. */
  function All(n: News, encode: string -> Bytes): (r: Bytes)
    ensures |n.articles| == 0 ==> r == encode("")
    ensures |n.articles| == 1 ==> r == encode(n.articles[0])
  {
    encode(Join(Reverse(n.articles)))
  }

  /** A new post is served first, followed by a separator and the earlier board (if any). */
  lemma PostThenAll(n: News, article: Bytes, decode: Bytes -> string, encode: string -> Bytes)
    ensures All(Post(n, article, decode), encode) ==
      encode(if |n.articles| == 0 then decode(article) else decode(article) + Separator + Join(Reverse(n.articles)))
  {
    var s := n.articles + [decode(article)];
    assert Reverse(s) == [decode(article)] + Reverse(n.articles);
    if |n.articles| > 0 {
      assert Reverse(s)[1..] == Reverse(n.articles);
    }
  }
}
