/**
 * The TOTP shared secret the enrollment page generates: a random GUID in its
 * default text form (8-4-4-4-12 lower-case hex digits), dashes removed, first
 * sixteen characters kept. A random GUID is version 4, so its thirteenth hex
 * digit is always 4, and so is the thirteenth character of every secret.
 */
module SecretKeys {

  type Nibble = n: int | 0 <= n < 16

  /** The 32 hex digits of a random (version 4) GUID in text order. */
  type Guid = g: seq<Nibble> | |g| == 32 && g[12] == 4
    witness [0, 0, 0, 0, 0, 0, 0, 0, 0, 0, 0, 0, 4, 0, 0, 0,
             0, 0, 0, 0, 0, 0, 0, 0, 0, 0, 0, 0, 0, 0, 0, 0]

  const HexDigits: string := "0123456789abcdef"

  function HexDigit(n: Nibble): (c: char)
    ensures c in HexDigits && c != '-'
  {
    HexDigits[n]
  }

  /** Lower-case hex rendering of a run of nibbles, one character each. */
  function Hex(ns: seq<Nibble>): (r: string)
    ensures |r| == |ns|
    ensures forall k :: 0 <= k < |ns| ==> r[k] == HexDigit(ns[k])
  {
    seq(|ns|, k requires 0 <= k < |ns| => HexDigit(ns[k]))
  }

  /** The GUID's default ("D") text form: 36 characters, dashes after digits 8, 12, 16 and 20. */
  function GuidString(g: Guid): (r: string)
    ensures |r| == 36
    ensures r[8] == '-' && r[13] == '-' && r[18] == '-' && r[23] == '-'
  {
    Hex(g[..8]) + "-" + Hex(g[8..12]) + "-" + Hex(g[12..16]) + "-" + Hex(g[16..20]) + "-" + Hex(g[20..])
  }

  /** `s` with every '-' removed (String.Replace("-", "")). */
  function WithoutDashes(s: string): (r: string)
    ensures |r| <= |s|
    ensures forall k :: 0 <= k < |r| ==> r[k] != '-'
    ensures (forall k :: 0 <= k < |s| ==> s[k] != '-') ==> r == s
  {
    if s == [] then "" else (if s[0] == '-' then "" else [s[0]]) + WithoutDashes(s[1..])
  }

  lemma {:induction false} WithoutDashesAppend(a: string, b: string)
    ensures WithoutDashes(a + b) == WithoutDashes(a) + WithoutDashes(b)
  {
    if a == [] {
      assert a + b == b;
    } else {
      assert (a + b)[1..] == a[1..] + b;
      WithoutDashesAppend(a[1..], b);
    }
  }

  lemma WithoutDashesJoin(a: string, b: string)
    ensures WithoutDashes(a + "-" + b) == WithoutDashes(a) + WithoutDashes(b)
  {
    WithoutDashesAppend(a + "-", b);
    WithoutDashesAppend(a, "-");
  }

  lemma WithoutDashesHex(ns: seq<Nibble>)
    ensures WithoutDashes(Hex(ns)) == Hex(ns)
  {
    var h := Hex(ns);
    assert forall k :: 0 <= k < |h| ==> h[k] != '-' by {
      forall k | 0 <= k < |h| ensures h[k] != '-' {
        assert h[k] == HexDigit(ns[k]);
      }
    }
  }

  /** The text form of a GUID with its dashes removed, group by group. */
  lemma GuidStringUndashed(g: Guid)
    ensures WithoutDashes(GuidString(g)) == Hex(g[..8]) + Hex(g[8..12]) + Hex(g[12..16]) + Hex(g[16..20]) + Hex(g[20..])
  {
    var p0, p1, p2, p3, p4 := Hex(g[..8]), Hex(g[8..12]), Hex(g[12..16]), Hex(g[16..20]), Hex(g[20..]);
    WithoutDashesHex(g[..8]);
    WithoutDashesHex(g[8..12]);
    WithoutDashesHex(g[12..16]);
    WithoutDashesHex(g[16..20]);
    WithoutDashesHex(g[20..]);
    WithoutDashesJoin(p0, p1);
    WithoutDashesJoin(p0 + "-" + p1, p2);
    WithoutDashesJoin(p0 + "-" + p1 + "-" + p2, p3);
    WithoutDashesJoin(p0 + "-" + p1 + "-" + p2 + "-" + p3, p4);
  }

  /** Hex rendering commutes with cutting the digits in two. */
  lemma HexSplit(ns: seq<Nibble>, i: nat)
    requires i <= |ns|
    ensures Hex(ns) == Hex(ns[..i]) + Hex(ns[i..])
  {
    var l, r := Hex(ns[..i]), Hex(ns[i..]);
    forall k | 0 <= k < |ns| ensures (l + r)[k] == Hex(ns)[k] {
      if k < i {
        assert (l + r)[k] == l[k] == HexDigit(ns[k]);
      } else {
        assert (l + r)[k] == r[k - i] == HexDigit(ns[k]);
      }
    }
  }

  /** The hex of a GUID's digits, group by group. */
  lemma GuidHexGroups(g: Guid)
    ensures Hex(g) == Hex(g[..8]) + Hex(g[8..12]) + Hex(g[12..16]) + Hex(g[16..20]) + Hex(g[20..])
  {
    var a := g[..20];
    var b := a[..16];
    var c := b[..12];
    HexSplit(g, 20);
    HexSplit(a, 16);
    HexSplit(b, 12);
    HexSplit(c, 8);
    assert a[16..] == g[16..20];
    assert b[12..] == g[12..16];
    assert c[8..] == g[8..12];
    assert c[..8] == g[..8];
  }

  /** Removing the dashes of a GUID's text form leaves exactly its 32 hex digits. */
  lemma GuidStringDigits(g: Guid)
    ensures WithoutDashes(GuidString(g)) == Hex(g)
  {
    GuidStringUndashed(g);
    GuidHexGroups(g);
  }

  /** A well-formed secret: sixteen lower-case hex digits, the thirteenth being 4. */
  ghost predicate IsSecretKey(s: string) {
    && |s| == 16
    && (forall k :: 0 <= k < 16 ==> s[k] in HexDigits)
    && s[12] == '4'
  }

  /** The secret generated from `g`: its first sixteen hex digits. */
  function NewSecretKey(g: Guid): (r: string)
    ensures r == Hex(g[..16])
    ensures IsSecretKey(r)
  {
    GuidStringDigits(g);
    WithoutDashes(GuidString(g))[..16]
  }
}
