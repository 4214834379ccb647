/**
 * The two kinds of marker an entry's text carries: the numbered placeholder
 * `{{ATTACHMENT_i}}` written when a card is transformed, and the reference
 * `dayone-moment://<identifier>` that replaces it when the entry is packaged.
 * The lemmas say that no two different markers can overlap in any text,
 * which is what makes the one-by-one rewriting of placeholders sound.
 */
module Placeholders {
  import opened Strings

  const PlaceholderOpen: string := "{{ATTACHMENT_"
  const PlaceholderClose: string := "}}"
  const MomentScheme: string := "dayone-moment://"

  /** `"{{ATTACHMENT_%d}}" % i`. */
  function Placeholder(i: nat): string {
    PlaceholderOpen + Decimal(i) + PlaceholderClose
  }

  predicate IsUpperHex(c: char) {
    '0' <= c <= '9' || 'A' <= c <= 'F'
  }

  /** The shape of `uuid.uuid4().hex.upper()`: 32 upper-case hexadecimal digits. */
  predicate IsUuidHex(s: string) {
    |s| == 32 && forall i :: 0 <= i < |s| ==> IsUpperHex(s[i])
  }

  type Uuid = s: string | IsUuidHex(s) witness "00000000000000000000000000000000"

  /** `f"dayone-moment://{identifier}"`. */
  function MomentRef(id: Uuid): string {
    MomentScheme + id
  }

  /** The characters a placeholder is made of: braces only at the two ends. */
  lemma {:induction false} PlaceholderChars(i: nat)
    ensures |Placeholder(i)| >= 16
    ensures Placeholder(i)[0] == '{' && Placeholder(i)[1] == '{' && Placeholder(i)[2] == 'A'
    ensures forall t :: 2 <= t < |Placeholder(i)| ==> Placeholder(i)[t] != '{'
    ensures 'd' !in Placeholder(i)
  {
    var d := Decimal(i);
    var p := Placeholder(i);
    assert |PlaceholderOpen| == 13;
    forall t | 0 <= t < |p|
      ensures p[t] != 'd'
      ensures t >= 2 ==> p[t] != '{'
    {
      if t < 13 {
        assert p[t] == PlaceholderOpen[t];
      } else if t < 13 + |d| {
        assert p[t] == d[t - 13];
        assert IsDigit(d[t - 13]);
      } else {
        assert p[t] == PlaceholderClose[t - 13 - |d|];
      }
    }
  }

  /** A reference starts with `d` and holds no opening brace. */
  lemma MomentRefChars(id: Uuid)
    ensures MomentRef(id)[0] == 'd'
    ensures '{' !in MomentRef(id)
  {
    var r := MomentRef(id);
    forall t | 0 <= t < |r| ensures r[t] != '{' {
      if t >= |MomentScheme| {
        assert r[t] == id[t - |MomentScheme|];
        assert IsUpperHex(id[t - |MomentScheme|]);
      }
    }
  }

  /** Two placeholders laid over each other at the same start clash, unless they are the same one. */
  lemma {:induction false} PlaceholdersDisagree(i: nat, j: nat)
    requires i != j
    ensures !Agree(Placeholder(i), Placeholder(j))
  {
    var a, b := Decimal(i), Decimal(j);
    var p, q := Placeholder(i), Placeholder(j);
    assert |PlaceholderOpen| == 13;
    DecimalRoundTrip(i);
    DecimalRoundTrip(j);
    if |a| == |b| {
      assert a != b;
      var m :| 0 <= m < |a| && a[m] != b[m];
      assert p[13 + m] == a[m] && q[13 + m] == b[m];
    } else if |a| < |b| {
      assert p[13 + |a|] == '}' && q[13 + |a|] == b[|a|];
      assert IsDigit(b[|a|]);
    } else {
      assert q[13 + |b|] == '}' && p[13 + |b|] == a[|b|];
      assert IsDigit(a[|b|]);
    }
  }

  /** Different placeholders can never overlap in a text. */
  lemma {:induction false} PlaceholdersApart(i: nat, j: nat)
    requires i != j
    ensures Apart(Placeholder(i), Placeholder(j))
  {
    var p, q := Placeholder(i), Placeholder(j);
    PlaceholderChars(i);
    PlaceholderChars(j);
    forall t | 0 <= t < |q| ensures !Agree(p, q[t..]) {
      if t == 0 {
        PlaceholdersDisagree(i, j);
        assert q[0..] == q;
      } else if t == 1 {
        assert p[1] != q[1..][1];
      } else {
        assert p[0] != q[t..][0];
      }
    }
    forall t | 0 < t < |p| ensures !Agree(p[t..], q) {
      if t == 1 {
        assert p[1..][1] != q[1];
      } else {
        assert p[t..][0] != q[0];
      }
    }
  }

  /** For i != j, `{{ATTACHMENT_i}}` is not a substring of `{{ATTACHMENT_j}}`. */
  lemma PlaceholderNotInOther(i: nat, j: nat)
    requires i != j
    ensures !Contains(Placeholder(j), Placeholder(i))
  {
    PlaceholdersApart(i, j);
    ApartNotContained(Placeholder(i), Placeholder(j));
  }

  /** A placeholder and a reference can never overlap in a text. */
  lemma {:induction false} PlaceholderApartFromRef(i: nat, id: Uuid)
    ensures Apart(Placeholder(i), MomentRef(id))
    ensures Placeholder(i)[0] !in MomentRef(id) && MomentRef(id)[0] !in Placeholder(i)
  {
    var p, r := Placeholder(i), MomentRef(id);
    PlaceholderChars(i);
    MomentRefChars(id);
    forall t | 0 <= t < |r| ensures !Agree(p, r[t..]) {
      assert p[0] != r[t..][0];
    }
    forall t | 0 < t < |p| ensures !Agree(p[t..], r) {
      assert p[t..][0] != r[0];
    }
  }
}
