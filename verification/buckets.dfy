/** The alphabetical buckets the crawler visits, in order: a bucket for titles
    starting with a digit or other symbol, then one per capital letter. */
module Buckets {

  /** The bucket name of the symbol-and-digit bucket. */
  const NumBucket: string := "NUM"

  /** The crawl order written out in full. */
  const CrawlOrder: seq<string> := [
    "NUM", "A", "B", "C", "D", "E", "F", "G", "H", "I", "J", "K", "L", "M",
    "N", "O", "P", "Q", "R", "S", "T", "U", "V", "W", "X", "Y", "Z"
  ]

  /** Builds the bucket list as the client's constructor does: the symbol
      bucket, then chr(i) for every code point i from 65 up to but not
      including 91. */
  method Letters() returns (letters: seq<string>)
    ensures |letters| == 27
    ensures letters[0] == NumBucket
    ensures forall i :: 1 <= i < |letters| ==> letters[i] == [(64 + i) as char]
    ensures letters == CrawlOrder
  {
    letters := [NumBucket];
    var i := 65;
    while i < 91
      invariant 65 <= i <= 91
      invariant |letters| == i - 64
      invariant letters[0] == NumBucket
      invariant forall k :: 1 <= k < |letters| ==> letters[k] == [(64 + k) as char]
    {
      letters := letters + [[i as char]];
      i := i + 1;
    }
  }

  /** No bucket name repeats. */
  lemma CrawlOrderDistinct()
    ensures forall i, j :: 0 <= i < j < |CrawlOrder| ==> CrawlOrder[i] != CrawlOrder[j]
  {
    forall i, j | 0 <= i < j < |CrawlOrder|
      ensures CrawlOrder[i] != CrawlOrder[j]
    {
      assert CrawlOrder[j] == [(64 + j) as char];
      if i > 0 {
        assert CrawlOrder[i] == [(64 + i) as char];
      }
    }
  }
}
