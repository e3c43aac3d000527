/**
 * Thread links. Both listing loops turn each thread id into the URL
 * `https://edstem.org/us/courses/{course}/discussion/{id}`, and both `main`
 * functions read the id back with `link.split('/')[-1]`.
 */
module ThreadLinks {

  /** The course both scripts list when no course is passed. */
  const DefaultCourse: string := "72657"

  predicate IsDigit(c: char)
  {
    '0' <= c <= '9'
  }

  function DigitChar(d: nat): (c: char)
    requires d < 10
    ensures IsDigit(c) && c as int - '0' as int == d
  {
    ('0' as int + d) as char
  }

  /** The decimal text an f-string gives for a (non-negative) thread id. */
  function Decimal(n: nat): (r: string)
    ensures |r| > 0
    ensures forall i :: 0 <= i < |r| ==> IsDigit(r[i])
    decreases n
  {
    if n < 10 then [DigitChar(n)] else Decimal(n / 10) + [DigitChar(n % 10)]
  }

  /** The value of a string of decimal digits, the inverse of `Decimal`. */
  function ParseDecimal(s: string): nat
    requires forall i :: 0 <= i < |s| ==> IsDigit(s[i])
    decreases |s|
  {
    if s == [] then 0
    else
      assert IsDigit(s[|s| - 1]);
      10 * ParseDecimal(s[..|s| - 1]) + (s[|s| - 1] as int - '0' as int)
  }

  lemma {:induction false} DecimalRoundTrip(n: nat)
    ensures ParseDecimal(Decimal(n)) == n
    decreases n
  {
    if n >= 10 {
      DecimalRoundTrip(n / 10);
      var d := Decimal(n / 10);
      assert (d + [DigitChar(n % 10)])[..|d|] == d;
    }
  }

  /** Distinct thread ids give distinct decimal texts. */
  lemma DecimalInjective(a: nat, b: nat)
    requires Decimal(a) == Decimal(b)
    ensures a == b
  {
    DecimalRoundTrip(a);
    DecimalRoundTrip(b);
  }

  /** The link a listed thread becomes. */
  function Url(course: string, id: nat): string
  {
    "https://edstem.org/us/courses/" + course + "/discussion/" + Decimal(id)
  }

  /** One link per thread id, in order. */
  function Links(course: string, ids: seq<nat>): (r: seq<string>)
  {
    seq(|ids|, i requires 0 <= i < |ids| => Url(course, ids[i]))
  }

  /** `s.split('/')[-1]`: what follows the last '/', or all of `s` when it has none. */
  function LastSegment(s: string): (r: string)
    ensures '/' !in r
    decreases |s|
  {
    if s == [] || s[|s| - 1] == '/' then [] else LastSegment(s[..|s| - 1]) + [s[|s| - 1]]
  }

  lemma {:induction false} LastSegmentAfterSlash(prefix: string, segment: string)
    requires '/' !in segment
    ensures LastSegment(prefix + "/" + segment) == segment
    decreases |segment|
  {
    var s := prefix + "/" + segment;
    if segment == [] {
      assert s[|s| - 1] == '/';
    } else {
      var shorter := segment[..|segment| - 1];
      assert s[..|s| - 1] == prefix + "/" + shorter;
      LastSegmentAfterSlash(prefix, shorter);
      assert shorter + [segment[|segment| - 1]] == segment;
    }
  }

  /** The id `main` reads out of a link is the decimal id the link was built from. */
  lemma ThreadIdFromLink(course: string, id: nat)
    ensures LastSegment(Url(course, id)) == Decimal(id)
    ensures ParseDecimal(LastSegment(Url(course, id))) == id
  {
    var d := Decimal(id);
    assert '/' !in d by {
      forall i | 0 <= i < |d| ensures d[i] != '/' { assert IsDigit(d[i]); }
    }
    assert Url(course, id) == ("https://edstem.org/us/courses/" + course + "/discussion") + "/" + d;
    LastSegmentAfterSlash("https://edstem.org/us/courses/" + course + "/discussion", d);
    DecimalRoundTrip(id);
  }

  /** Links of distinct threads yield distinct ids, so no thread is fetched in place of another. */
  lemma LinkIdsDistinct(course: string, a: nat, b: nat)
    requires a != b
    ensures LastSegment(Url(course, a)) != LastSegment(Url(course, b))
  {
    ThreadIdFromLink(course, a);
    ThreadIdFromLink(course, b);
    if Decimal(a) == Decimal(b) {
      DecimalInjective(a, b);
    }
  }
}
