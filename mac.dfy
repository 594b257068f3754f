/**
  `random_mac`: the hardware address given to each clone. Three octets are
  fixed (00:16:3e), the other three come from the random number generator,
  which this model takes as parameters.
 */
module Mac {
  import opened Strings

  /** The ranges of the three `random.randint` calls: the fourth octet is at
      most 0x7f, the fifth and sixth at most 0xff. */
  predicate ValidRandomOctets(b3: nat, b4: nat, b5: nat)
  {
    b3 <= 0x7f && b4 <= 0xff && b5 <= 0xff
  }

  /** `':'.join(map(lambda x: "%02x" % x, octets))`. */
  function FormatMac(octets: seq<nat>): string
    requires forall i | 0 <= i < |octets| :: octets[i] < 256
  {
    JoinWith(":", seq(|octets|, i requires 0 <= i < |octets| => Hex2(octets[i])))
  }

  /** A string of six two-digit lower-case hexadecimal groups joined by ':'. */
  predicate IsMacText(r: string)
  {
    |r| == 17 && forall i | 0 <= i < 17 :: if i % 3 == 2 then r[i] == ':' else IsLowerHex(r[i])
  }

  /** The six octets written in a MAC text. */
  function ParseMac(r: string): (octets: seq<nat>)
    requires IsMacText(r)
    ensures |octets| == 6 && forall k | 0 <= k < 6 :: octets[k] < 256
  {
    seq(6, k requires 0 <= k < 6 => HexValue(r[3 * k]) * 16 + HexValue(r[3 * k + 1]))
  }

  /** The generated address: 17 characters, six lower-case hex pairs joined
      by ':', always starting 00:16:3e:, the fourth octet at most 7f, and
      reading back as exactly the octets it was made from. */
  function RandomMac(b3: nat, b4: nat, b5: nat): (r: string)
    requires ValidRandomOctets(b3, b4, b5)
    ensures IsMacText(r)
    ensures r[..9] == "00:16:3e:"
    ensures '0' <= r[9] <= '7'
    ensures ParseMac(r) == [0x00, 0x16, 0x3e, b3, b4, b5]
  {
    var octets: seq<nat> := [0x00, 0x16, 0x3e, b3, b4, b5];
    var r := FormatMac(octets);
    FormattedMac(octets);
    assert Hex2(0x00) == "00" && Hex2(0x16) == "16" && Hex2(0x3e) == "3e";
    assert r[0] == '0' && r[1] == '0' && r[3] == '1' && r[4] == '6' && r[6] == '3' && r[7] == 'e' by {
      assert r[3 * 0] == Hex2(octets[0])[0] && r[3 * 1] == Hex2(octets[1])[0] && r[3 * 2] == Hex2(octets[2])[0];
    }
    assert r[2] == ':' && r[5] == ':' && r[8] == ':' by {
      assert 2 % 3 == 2 && 5 % 3 == 2 && 8 % 3 == 2;
    }
    assert r[..9] == "00:16:3e:";
    assert r[9] == HexDigit(b3 / 16) by {
      assert r[3 * 3] == Hex2(octets[3])[0];
    }
    r
  }

  /** Six octets formatted and joined read back as the same six octets. */
  lemma FormattedMac(octets: seq<nat>)
    requires |octets| == 6 && forall i | 0 <= i < 6 :: octets[i] < 256
    ensures IsMacText(FormatMac(octets)) && ParseMac(FormatMac(octets)) == octets
    ensures forall k | 0 <= k < 6 :: FormatMac(octets)[3 * k] == Hex2(octets[k])[0]
    ensures forall k | 0 <= k < 6 :: FormatMac(octets)[3 * k + 1] == Hex2(octets[k])[1]
  {
    var h := seq(6, i requires 0 <= i < 6 => Hex2(octets[i]));
    var r := FormatMac(octets);
    JoinedPairs(h);
    forall i | 0 <= i < 17 ensures if i % 3 == 2 then r[i] == ':' else IsLowerHex(r[i]) {
      var k := i / 3;
      assert i == 3 * k + i % 3;
      assert IsLowerHex(h[k][0]) && IsLowerHex(h[k][1]);
    }
    var p := ParseMac(r);
    forall k | 0 <= k < 6 ensures p[k] == octets[k] {
      assert r[3 * k] == h[k][0] && r[3 * k + 1] == h[k][1];
    }
  }

  /** Two-character parts joined by ':' put part `k` at positions 3k and
      3k+1 and a ':' at every position 3k+2 between them. */
  lemma {:induction false} JoinedPairs(parts: seq<string>)
    requires |parts| >= 1 && forall k | 0 <= k < |parts| :: |parts[k]| == 2
    ensures |JoinWith(":", parts)| == 3 * |parts| - 1
    ensures forall k | 0 <= k < |parts| ::
      JoinWith(":", parts)[3 * k] == parts[k][0] && JoinWith(":", parts)[3 * k + 1] == parts[k][1]
    ensures forall k | 0 <= k < |parts| - 1 :: JoinWith(":", parts)[3 * k + 2] == ':'
    decreases |parts|
  {
    if |parts| > 1 {
      JoinedPairs(parts[1..]);
      var rest := JoinWith(":", parts[1..]);
      var r := JoinWith(":", parts);
      assert r == parts[0] + ":" + rest;
      forall k | 1 <= k < |parts|
        ensures r[3 * k] == parts[k][0] && r[3 * k + 1] == parts[k][1]
        ensures k < |parts| - 1 ==> r[3 * k + 2] == ':'
      {
        assert parts[1..][k - 1] == parts[k];
        assert r[3 * k] == rest[3 * (k - 1)];
      }
    }
  }

  /** Different random octets always give different addresses. */
  lemma RandomMacInjective(a3: nat, a4: nat, a5: nat, b3: nat, b4: nat, b5: nat)
    requires ValidRandomOctets(a3, a4, a5) && ValidRandomOctets(b3, b4, b5)
    requires (a3, a4, a5) != (b3, b4, b5)
    ensures RandomMac(a3, a4, a5) != RandomMac(b3, b4, b5)
  {
    var x := RandomMac(a3, a4, a5);
    var y := RandomMac(b3, b4, b5);
  }
}
