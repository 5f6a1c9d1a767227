/**
 * `certToPEM`: wraps the text of a DER certificate (its base64 form, as found in a
 * JWK `x5c` entry) into a PEM block in the layout of section 2 of RFC 7468, by
 * cutting it with the regular expression `/.{1,64}/g` and joining the pieces with
 * newlines between a fixed header and footer.
 */
module Pem {
  import opened Wrappers
  import opened JsStrings

  const LineWidth: nat := 64
  const PemHeader: string := "-----BEGIN CERTIFICATE-----\n"
  const PemFooter: string := "\n-----END CERTIFICATE-----\n"

  /** The characters that the regular-expression `.` does not match. */
  predicate IsLineTerminator(c: char)
  {
    c == '\n' || c == '\r' || c == '\U{2028}' || c == '\U{2029}'
  }

  predicate NoTerminators(s: string)
  {
    forall i :: 0 <= i < |s| ==> !IsLineTerminator(s[i])
  }

  /** `s` with every line terminator removed: the characters `.` can match. */
  function StripTerminators(s: string): string
  {
    if |s| == 0 then ""
    else (if IsLineTerminator(s[0]) then "" else [s[0]]) + StripTerminators(s[1..])
  }

  /** How many characters one greedy `.{1,max}` match takes from the front of `s`. */
  function RunLength(s: string, max: nat): (n: nat)
    ensures n <= |s| && n <= max
    ensures NoTerminators(s[..n])
    ensures n < |s| && n < max ==> IsLineTerminator(s[n])
  {
    if |s| == 0 || max == 0 || IsLineTerminator(s[0]) then 0
    else
      var k := RunLength(s[1..], max - 1);
      assert s[..k + 1] == [s[0]] + s[1..][..k];
      k + 1
  }

  /**
   * `s.match(/.{1,64}/g)`, with `[]` standing for the `null` returned when nothing
   * matches. Every match is 1 to 64 characters long and holds no line terminator.
   */
  function MatchLines(s: string): (lines: seq<string>)
    ensures forall i :: 0 <= i < |lines| ==> 1 <= |lines[i]| <= LineWidth && NoTerminators(lines[i])
    decreases |s|
  {
    if |s| == 0 then []
    else if IsLineTerminator(s[0]) then MatchLines(s[1..])
    else
      var n := RunLength(s, LineWidth);
      [s[..n]] + MatchLines(s[n..])
  }

  lemma {:induction false} StripAppend(a: string, b: string)
    ensures StripTerminators(a + b) == StripTerminators(a) + StripTerminators(b)
  {
    if |a| > 0 {
      StripAppend(a[1..], b);
      assert (a + b)[1..] == a[1..] + b;
    } else {
      assert a + b == b;
    }
  }

  lemma {:induction false} StripNone(s: string)
    requires NoTerminators(s)
    ensures StripTerminators(s) == s
  {
    if |s| > 0 {
      assert NoTerminators(s[1..]) by {
        forall i | 0 <= i < |s| - 1 ensures !IsLineTerminator(s[1..][i]) {
          assert s[1..][i] == s[i + 1];
        }
      }
      StripNone(s[1..]);
      assert s == [s[0]] + s[1..];
    }
  }

  /** The matches, put back together, are exactly the characters `.` can match. */
  lemma {:induction false} MatchLinesConcat(s: string)
    ensures Concat(MatchLines(s)) == StripTerminators(s)
    decreases |s|
  {
    if |s| > 0 {
      if IsLineTerminator(s[0]) {
        MatchLinesConcat(s[1..]);
      } else {
        var n := RunLength(s, LineWidth);
        MatchLinesConcat(s[n..]);
        StripNone(s[..n]);
        StripAppend(s[..n], s[n..]);
        assert s == s[..n] + s[n..];
        assert MatchLines(s)[1..] == MatchLines(s[n..]);
      }
    }
  }

  /** On text without line terminators every match but the last is a full line. */
  lemma {:induction false} MatchLinesFull(s: string)
    requires NoTerminators(s)
    ensures forall i :: 0 <= i < |MatchLines(s)| - 1 ==> |MatchLines(s)[i]| == LineWidth
    decreases |s|
  {
    if |s| > 0 {
      var n := RunLength(s, LineWidth);
      var rest := MatchLines(s[n..]);
      assert MatchLines(s) == [s[..n]] + rest;
      if n < |s| {
        assert n == LineWidth;
        assert NoTerminators(s[n..]) by {
          forall i | 0 <= i < |s| - n ensures !IsLineTerminator(s[n..][i]) {
            assert s[n..][i] == s[n + i];
          }
        }
        MatchLinesFull(s[n..]);
      } else {
        assert s[n..] == [];
      }
    }
  }

  lemma {:induction false} ConcatEmpty(lines: seq<string>)
    requires forall i :: 0 <= i < |lines| ==> |lines[i]| >= 1
    ensures Concat(lines) == "" <==> lines == []
  {
    if |lines| > 0 {
      assert |Concat(lines)| >= |lines[0]|;
    }
  }

  /**
   * `certToPEM(cert)`: `None` when `cert` holds nothing `.` can match (the match
   * is `null` and `.join` throws), otherwise the PEM block.
   */
  function CertToPem(cert: string): (pem: Option<string>)
    ensures pem.None? <==> StripTerminators(cert) == ""
    ensures pem.Some? ==> StartsWith(pem.value, PemHeader) && EndsWith(pem.value, PemFooter)
  {
    var lines := MatchLines(cert);
    MatchLinesConcat(cert);
    ConcatEmpty(lines);
    if |lines| == 0 then None
    else
      var pem := PemHeader + Join(lines, '\n') + PemFooter;
      assert pem[..|PemHeader|] == PemHeader;
      assert pem[|pem| - |PemFooter|..] == PemFooter;
      Some(pem)
  }

  /**
   * For a non-empty certificate without line terminators: the block is header, body,
   * footer; the body's lines are at most 64 characters, all but the last exactly 64,
   * and put together they are the certificate.
   */
  lemma CertToPemLayout(cert: string)
    requires cert != "" && NoTerminators(cert)
    ensures CertToPem(cert).Some?
    ensures var pem := CertToPem(cert).value;
            var body := pem[|PemHeader|..|pem| - |PemFooter|];
            var lines := Split(body, '\n');
            && pem == PemHeader + body + PemFooter
            && Concat(lines) == cert
            && (forall i :: 0 <= i < |lines| ==> 1 <= |lines[i]| <= LineWidth)
            && (forall i :: 0 <= i < |lines| - 1 ==> |lines[i]| == LineWidth)
  {
    StripNone(cert);
    var lines := MatchLines(cert);
    MatchLinesConcat(cert);
    MatchLinesFull(cert);
    ConcatEmpty(lines);
    var body := Join(lines, '\n');
    var pem := PemHeader + body + PemFooter;
    assert CertToPem(cert) == Some(pem);
    assert pem[|PemHeader|..|pem| - |PemFooter|] == body;
    assert forall i :: 0 <= i < |lines| ==> '\n' !in lines[i] by {
      forall i, j | 0 <= i < |lines| && 0 <= j < |lines[i]| ensures lines[i][j] != '\n' {
        assert !IsLineTerminator(lines[i][j]);
      }
    }
    SplitJoin(lines, '\n');
  }
}
