/**
  The connection-string password masker of the startup code: a connection
  string is split into `;`-separated segments, every segment that mentions
  "Password" (ordinal, ignoring case) and splits on `=` into exactly a key and
  a value has its value replaced by `***MASKED***`, and the segments are joined
  back with `;`.
 */
module ConnectionString {
  import opened Text

  const SegmentSeparator: char := ';'
  const KeyValueSeparator: char := '='
  const PasswordKeyword: string := "Password"
  const Mask: string := "***MASKED***"

  /** The segment as the loop body leaves it. */
  function MaskedSegment(segment: string): (r: string)
  {
    var keyValue := Split(segment, KeyValueSeparator);
    if ContainsIgnoreCase(segment, PasswordKeyword) && |keyValue| == 2 then
      keyValue[0] + [KeyValueSeparator] + Mask
    else
      segment
  }

  /** Every segment rewritten on its own, in place. */
  function MaskedSegments(parts: seq<string>): (r: seq<string>)
  {
    seq(|parts|, k requires 0 <= k < |parts| => MaskedSegment(parts[k]))
  }

  /** Rewriting two runs of segments is rewriting their concatenation. */
  lemma MaskedSegmentsAppend(x: seq<string>, y: seq<string>)
    ensures MaskedSegments(x + y) == MaskedSegments(x) + MaskedSegments(y)
  {
  }

  /** What `MaskPassword` returns for `connectionString`. */
  function Masked(connectionString: string): (r: string)
  {
    if connectionString == [] then connectionString
    else Join(MaskedSegments(Split(connectionString, SegmentSeparator)), SegmentSeparator)
  }

  /** The helper as written: split into an array, overwrite segments in a loop, join. */
  method MaskPassword(connectionString: string) returns (r: string)
    ensures connectionString == [] ==> r == connectionString
    ensures r == Masked(connectionString)
  {
    if connectionString == [] {
      return connectionString;
    }
    var segments := Split(connectionString, SegmentSeparator);
    var parts := new string[|segments|](k requires 0 <= k < |segments| => segments[k]);
    for i := 0 to parts.Length
      invariant parts[..i] == MaskedSegments(segments[..i])
      invariant parts[i..] == segments[i..]
    {
      if ContainsIgnoreCase(parts[i], PasswordKeyword) {
        var keyValue := Split(parts[i], KeyValueSeparator);
        if |keyValue| == 2 {
          parts[i] := keyValue[0] + [KeyValueSeparator] + Mask;
        }
      }
      assert parts[i] == MaskedSegment(segments[i]);
    }
    assert parts[..] == parts[..parts.Length];
    assert segments == segments[..parts.Length];
    r := Join(parts[..], SegmentSeparator);
  }

  /** A segment holding exactly one `=`, at `i`, and the keyword keeps its key verbatim and loses its value. */
  lemma MaskedSegmentShape(segment: string, i: nat)
    requires i < |segment| && segment[i] == KeyValueSeparator
    requires KeyValueSeparator !in segment[..i] && KeyValueSeparator !in segment[i + 1..]
    requires ContainsIgnoreCase(segment, PasswordKeyword)
    ensures MaskedSegment(segment) == segment[..i] + [KeyValueSeparator] + Mask
  {
    SplitAtOnlySeparator(segment, i, KeyValueSeparator);
  }

  /** The output of the segment rewrite never contains the segment separator the input lacked. */
  lemma MaskedSegmentKeepsSeparatorOut(segment: string, sep: char)
    requires sep !in segment && sep != '*' && sep !in "MASKED"
    ensures sep !in MaskedSegment(segment)
  {
    var keyValue := Split(segment, KeyValueSeparator);
    if ContainsIgnoreCase(segment, PasswordKeyword) && |keyValue| == 2 {
      JoinSplit(segment, KeyValueSeparator);
      assert segment == keyValue[0] + [KeyValueSeparator] + keyValue[1];
      assert sep !in keyValue[0];
    }
  }

  /** A segment without the keyword, or without exactly one `=`, comes out unchanged. */
  lemma MaskedSegmentUnchanged(segment: string)
    requires !ContainsIgnoreCase(segment, PasswordKeyword) || multiset(segment)[KeyValueSeparator] != 1
    ensures MaskedSegment(segment) == segment
  {
    SplitCount(segment, KeyValueSeparator);
  }

  /** Rewriting a segment a second time changes nothing. */
  lemma MaskedSegmentIdempotent(segment: string)
    ensures MaskedSegment(MaskedSegment(segment)) == MaskedSegment(segment)
  {
    var keyValue := Split(segment, KeyValueSeparator);
    if ContainsIgnoreCase(segment, PasswordKeyword) && |keyValue| == 2 {
      var key := keyValue[0];
      SplitSegmentsLackSeparator(segment, KeyValueSeparator);
      assert KeyValueSeparator !in Mask;
      SplitOnce(key, Mask, KeyValueSeparator);
    }
  }

  /** The early return for the empty string does not change the result. */
  lemma MaskedIsSplitRewriteJoin(connectionString: string)
    ensures Masked(connectionString) ==
            Join(MaskedSegments(Split(connectionString, SegmentSeparator)), SegmentSeparator)
  {
    if connectionString == [] {
      assert MaskedSegments([[]]) == [MaskedSegment([])];
    }
  }

  /** The output has the input's segments, each rewritten on its own and kept at its position. */
  lemma MaskedSegmentwise(connectionString: string)
    ensures |Split(Masked(connectionString), SegmentSeparator)| == |Split(connectionString, SegmentSeparator)|
    ensures Split(Masked(connectionString), SegmentSeparator) == MaskedSegments(Split(connectionString, SegmentSeparator))
  {
    var parts := Split(connectionString, SegmentSeparator);
    var out := MaskedSegments(parts);
    SplitSegmentsLackSeparator(connectionString, SegmentSeparator);
    forall k | 0 <= k < |out| ensures SegmentSeparator !in out[k] {
      MaskedSegmentKeepsSeparatorOut(parts[k], SegmentSeparator);
    }
    MaskedIsSplitRewriteJoin(connectionString);
    SplitJoin(out, SegmentSeparator);
  }

  /** A segment that does not mention the keyword comes out unchanged. */
  lemma UnmatchedSegmentUnchanged(connectionString: string, k: nat)
    requires k < |Split(connectionString, SegmentSeparator)|
    requires !ContainsIgnoreCase(Split(connectionString, SegmentSeparator)[k], PasswordKeyword)
    ensures k < |Split(Masked(connectionString), SegmentSeparator)|
    ensures Split(Masked(connectionString), SegmentSeparator)[k] == Split(connectionString, SegmentSeparator)[k]
  {
    MaskedSegmentwise(connectionString);
  }

  /** When no segment both mentions the keyword and holds exactly one `=`, the output is the input. */
  lemma NothingToMaskIsIdentity(connectionString: string)
    requires forall k :: 0 <= k < |Split(connectionString, SegmentSeparator)| ==>
               !ContainsIgnoreCase(Split(connectionString, SegmentSeparator)[k], PasswordKeyword) ||
               multiset(Split(connectionString, SegmentSeparator)[k])[KeyValueSeparator] != 1
    ensures Masked(connectionString) == connectionString
  {
    var parts := Split(connectionString, SegmentSeparator);
    forall k | 0 <= k < |parts| ensures MaskedSegment(parts[k]) == parts[k] {
      MaskedSegmentUnchanged(parts[k]);
    }
    assert MaskedSegments(parts) == parts;
    MaskedIsSplitRewriteJoin(connectionString);
    JoinSplit(connectionString, SegmentSeparator);
  }

  /** Masking its own output again gives the same string. */
  lemma MaskedIdempotent(connectionString: string)
    ensures Masked(Masked(connectionString)) == Masked(connectionString)
  {
    var out := Masked(connectionString);
    var parts := Split(connectionString, SegmentSeparator);
    MaskedSegmentwise(connectionString);
    MaskedIsSplitRewriteJoin(out);
    assert MaskedSegments(MaskedSegments(parts)) == MaskedSegments(parts) by {
      forall k | 0 <= k < |parts| ensures MaskedSegment(MaskedSegment(parts[k])) == MaskedSegment(parts[k]) {
        MaskedSegmentIdempotent(parts[k]);
      }
    }
    MaskedIsSplitRewriteJoin(connectionString);
  }

  /** Masking a string made of two parts separated by `;` masks each part on its own. */
  lemma MaskedAround(a: string, b: string)
    ensures Masked(a + [SegmentSeparator] + b) == Masked(a) + [SegmentSeparator] + Masked(b)
  {
    var x := Split(a, SegmentSeparator);
    var y := Split(b, SegmentSeparator);
    SplitAround(a, b, SegmentSeparator);
    MaskedSegmentsAppend(x, y);
    MaskedIsSplitRewriteJoin(a + [SegmentSeparator] + b);
    MaskedIsSplitRewriteJoin(a);
    MaskedIsSplitRewriteJoin(b);
    JoinAppend(MaskedSegments(x), MaskedSegments(y), SegmentSeparator);
  }

  /**
    No segment of the output that mentions the keyword and holds exactly one `=`
    still shows a value other than the mask.
   */
  lemma MaskedHidesPasswords(connectionString: string, k: nat, i: nat)
    requires k < |Split(Masked(connectionString), SegmentSeparator)|
    requires var segment := Split(Masked(connectionString), SegmentSeparator)[k];
             && i < |segment| && segment[i] == KeyValueSeparator
             && KeyValueSeparator !in segment[..i] && KeyValueSeparator !in segment[i + 1..]
             && ContainsIgnoreCase(segment, PasswordKeyword)
    ensures Split(Masked(connectionString), SegmentSeparator)[k][i + 1..] == Mask
  {
    var parts := Split(connectionString, SegmentSeparator);
    var segment := Split(Masked(connectionString), SegmentSeparator)[k];
    MaskedSegmentwise(connectionString);
    MaskedSegmentIdempotent(parts[k]);
    MaskedSegmentShape(segment, i);
    assert segment == segment[..i] + [KeyValueSeparator] + Mask;
  }
}
