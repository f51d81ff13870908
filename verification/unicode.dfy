/**
 The widths Rust strings give a Unicode scalar value: a `String` is stored as
 UTF-8 bytes, and the language-server protocol counts columns in UTF-16 code
 units. Dafny's `char` is a Unicode scalar value, so a Rust line is modelled as
 a `string` and its byte offsets through `Utf8Len`.
 */
module Unicode {
  import opened Wrappers

  /** Number of bytes `c` takes in UTF-8. */
  function Utf8Width(c: char): nat
  {
    if c as int < 0x80 then 1
    else if c as int < 0x800 then 2
    else if c as int < 0x1_0000 then 3
    else 4
  }

  /** Number of UTF-16 code units `c` takes: two for a supplementary-plane scalar. */
  function Utf16Width(c: char): nat
  {
    if c as int < 0x1_0000 then 1 else 2
  }

  /** Length in bytes of the UTF-8 encoding of `s`. */
  function Utf8Len(s: string): nat
  {
    if s == [] then 0 else Utf8Len(s[..|s| - 1]) + Utf8Width(s[|s| - 1])
  }

  /** Length of `s` in UTF-16 code units (what `encode_utf16().count()` returns). */
  function Utf16Len(s: string): nat
  {
    if s == [] then 0 else Utf16Len(s[..|s| - 1]) + Utf16Width(s[|s| - 1])
  }

  predicate IsAscii(s: string)
  {
    forall i :: 0 <= i < |s| ==> s[i] as int < 0x80
  }

  lemma {:induction false} Utf8LenConcat(s: string, t: string)
    ensures Utf8Len(s + t) == Utf8Len(s) + Utf8Len(t)
    decreases |t|
  {
    if t != [] {
      assert (s + t)[..|s + t| - 1] == s + t[..|t| - 1];
      Utf8LenConcat(s, t[..|t| - 1]);
    } else {
      assert s + t == s;
    }
  }

  lemma {:induction false} Utf16LenConcat(s: string, t: string)
    ensures Utf16Len(s + t) == Utf16Len(s) + Utf16Len(t)
    decreases |t|
  {
    if t != [] {
      assert (s + t)[..|s + t| - 1] == s + t[..|t| - 1];
      Utf16LenConcat(s, t[..|t| - 1]);
    } else {
      assert s + t == s;
    }
  }

  /** Every scalar takes at least one byte, so longer prefixes are strictly longer in bytes. */
  lemma {:induction false} Utf8LenPrefixGrows(s: string, i: nat, j: nat)
    requires i <= j <= |s|
    ensures Utf8Len(s[..i]) + (j - i) <= Utf8Len(s[..j])
    decreases j - i
  {
    if i < j {
      Utf8LenPrefixGrows(s, i, j - 1);
      assert s[..j][..j - 1] == s[..j - 1];
    }
  }

  /** A longer prefix never has fewer UTF-16 code units. */
  lemma {:induction false} Utf16LenPrefixGrows(s: string, i: nat, j: nat)
    requires i <= j <= |s|
    ensures Utf16Len(s[..i]) + (j - i) <= Utf16Len(s[..j])
    decreases j - i
  {
    if i < j {
      Utf16LenPrefixGrows(s, i, j - 1);
      assert s[..j][..j - 1] == s[..j - 1];
    }
  }

  /** A UTF-16 column never exceeds the byte offset of the same position. */
  lemma {:induction false} Utf16LenAtMostUtf8Len(s: string)
    ensures Utf16Len(s) <= Utf8Len(s)
    decreases |s|
  {
    if s != [] {
      Utf16LenAtMostUtf8Len(s[..|s| - 1]);
    }
  }

  /** Every scalar takes one to four UTF-8 bytes. */
  lemma {:induction false} Utf8LenBounds(s: string)
    ensures |s| <= Utf8Len(s) <= 4 * |s|
    decreases |s|
  {
    if s != [] {
      Utf8LenBounds(s[..|s| - 1]);
    }
  }

  /** Every scalar takes one or two UTF-16 code units. */
  lemma {:induction false} Utf16LenBounds(s: string)
    ensures |s| <= Utf16Len(s) <= 2 * |s|
    decreases |s|
  {
    if s != [] {
      Utf16LenBounds(s[..|s| - 1]);
    }
  }

  /** Byte length and UTF-16 length agree exactly on ASCII text: any other scalar takes more bytes than code units. */
  lemma {:induction false} Utf16LenIsUtf8LenIffAscii(s: string)
    ensures Utf16Len(s) == Utf8Len(s) <==> IsAscii(s)
    decreases |s|
  {
    if s != [] {
      var p, c := s[..|s| - 1], s[|s| - 1];
      Utf16LenIsUtf8LenIffAscii(p);
      Utf16LenAtMostUtf8Len(p);
      assert s == p + [c];
      AsciiSnoc(p, c);
    }
  }

  /** A text with one more scalar is ASCII exactly when the text and the scalar are. */
  lemma {:induction false} AsciiSnoc(p: string, c: char)
    ensures IsAscii(p + [c]) <==> IsAscii(p) && c as int < 0x80
  {
    var s := p + [c];
    assert s[|p|] == c;
    assert forall i :: 0 <= i < |p| ==> s[i] == p[i];
  }

  /** Text of the basic multilingual plane takes one UTF-16 code unit per scalar. */
  lemma {:induction false} Utf16LenBmp(s: string)
    requires forall i :: 0 <= i < |s| ==> s[i] as int < 0x1_0000
    ensures Utf16Len(s) == |s|
    decreases |s|
  {
    if s != [] {
      Utf16LenBmp(s[..|s| - 1]);
    }
  }

  /** On ASCII text a byte offset, a UTF-16 column and a scalar index coincide. */
  lemma {:induction false} AsciiLengths(s: string)
    requires IsAscii(s)
    ensures Utf8Len(s) == |s| && Utf16Len(s) == |s|
    decreases |s|
  {
    if s != [] {
      AsciiLengths(s[..|s| - 1]);
    }
  }

  /**
   The scalar index at which byte offset `b` of `s` falls, or None when `b` is
   not on a character boundary (where Rust's `&s[..b]` and `&s[b..]` panic).
   */
  function CharIndexOfByte(s: string, b: nat): (r: Option<nat>)
    ensures r.Some? ==> r.value <= |s| && Utf8Len(s[..r.value]) == b
    ensures r.None? ==> forall i :: 0 <= i <= |s| ==> Utf8Len(s[..i]) != b
    decreases |s|
  {
    if Utf8Len(s) == b then
      assert s[..|s|] == s;
      Some(|s|)
    else if s == [] || Utf8Len(s) < b then
      assert forall i :: 0 <= i <= |s| ==> Utf8Len(s[..i]) <= Utf8Len(s) by {
        forall i | 0 <= i <= |s|
          ensures Utf8Len(s[..i]) <= Utf8Len(s)
        {
          Utf8LenPrefixGrows(s, i, |s|);
          assert s[..|s|] == s;
        }
      }
      None
    else
      var init := s[..|s| - 1];
      assert forall i :: 0 <= i <= |init| ==> init[..i] == s[..i];
      var r := CharIndexOfByte(init, b);
      assert r.None? ==> forall i :: 0 <= i <= |s| ==> Utf8Len(s[..i]) != b by {
        if r.None? {
          forall i | 0 <= i <= |s|
            ensures Utf8Len(s[..i]) != b
          {
            if i == |s| {
              assert s[..i] == s;
            } else {
              assert init[..i] == s[..i];
            }
          }
        }
      }
      r
  }

  /** Whether `b` is a character boundary of `s` (Rust's `str::is_char_boundary`). */
  predicate IsCharBoundary(s: string, b: nat)
  {
    CharIndexOfByte(s, b).Some?
  }

  /** The byte offset of every scalar position is a boundary, and it maps back to that position. */
  lemma {:induction false} CharIndexOfByteOfPrefix(s: string, i: nat)
    requires i <= |s|
    ensures CharIndexOfByte(s, Utf8Len(s[..i])) == Some(i)
  {
    var r := CharIndexOfByte(s, Utf8Len(s[..i]));
    var j := r.value;
    if j < i {
      Utf8LenPrefixGrows(s, j, i);
    } else if i < j {
      Utf8LenPrefixGrows(s, i, j);
    }
  }

  /**
   The scalar index at which UTF-16 column `u` of `s` falls, or None when `u`
   splits a surrogate pair: the protocol's columns counted back into `s`.
   */
  function CharIndexOfUnit(s: string, u: nat): (r: Option<nat>)
    ensures r.Some? ==> r.value <= |s| && Utf16Len(s[..r.value]) == u
    ensures r.None? ==> forall i :: 0 <= i <= |s| ==> Utf16Len(s[..i]) != u
    decreases |s|
  {
    if Utf16Len(s) == u then
      assert s[..|s|] == s;
      Some(|s|)
    else if s == [] || Utf16Len(s) < u then
      assert forall i :: 0 <= i <= |s| ==> Utf16Len(s[..i]) <= Utf16Len(s) by {
        forall i | 0 <= i <= |s|
          ensures Utf16Len(s[..i]) <= Utf16Len(s)
        {
          Utf16LenPrefixGrows(s, i, |s|);
          assert s[..|s|] == s;
        }
      }
      None
    else
      var init := s[..|s| - 1];
      assert forall i :: 0 <= i <= |init| ==> init[..i] == s[..i];
      var r := CharIndexOfUnit(init, u);
      assert r.None? ==> forall i :: 0 <= i <= |s| ==> Utf16Len(s[..i]) != u by {
        if r.None? {
          forall i | 0 <= i <= |s|
            ensures Utf16Len(s[..i]) != u
          {
            if i == |s| {
              assert s[..i] == s;
            } else {
              assert init[..i] == s[..i];
            }
          }
        }
      }
      r
  }

  /** The UTF-16 column of every scalar position maps back to that position. */
  lemma {:induction false} CharIndexOfUnitOfPrefix(s: string, i: nat)
    requires i <= |s|
    ensures CharIndexOfUnit(s, Utf16Len(s[..i])) == Some(i)
  {
    var r := CharIndexOfUnit(s, Utf16Len(s[..i]));
    var j := r.value;
    if j < i {
      Utf16LenPrefixGrows(s, j, i);
    } else if i < j {
      Utf16LenPrefixGrows(s, i, j);
    }
  }

  /** In the basic multilingual plane every column up to the length is a scalar index. */
  lemma {:induction false} BmpCharIndexOfUnit(s: string, u: nat)
    requires forall i :: 0 <= i < |s| ==> s[i] as int < 0x1_0000
    requires u <= |s|
    ensures CharIndexOfUnit(s, u) == Some(u)
  {
    var p := s[..u];
    assert forall i :: 0 <= i < |p| ==> p[i] == s[i];
    Utf16LenBmp(p);
    CharIndexOfUnitOfPrefix(s, u);
  }

  /** On ASCII text every byte offset up to the length is a boundary, at the same index. */
  lemma {:induction false} AsciiCharIndex(s: string, b: nat)
    requires IsAscii(s) && b <= |s|
    ensures CharIndexOfByte(s, b) == Some(b)
  {
    AsciiLengths(s[..b]);
    CharIndexOfByteOfPrefix(s, b);
  }
}
