/** 8.3 names. */
module Fat32Names {
  import opened Words
  import opened Fat32Dir

  const DOT: u8 := 46
  const SPACE: u8 := 32

  function Upper(c: u8): u8 {
    if 97 <= c <= 122 then c - 32 else c
  }

  function UpperAll(s: Bytes): (r: Bytes)
    ensures |r| == |s| && forall i :: 0 <= i < |s| ==> r[i] == Upper(s[i])
  {
    seq(|s|, i requires 0 <= i < |s| => Upper(s[i]))
  }

  /** A C string: the bytes before the terminating zero. */
  predicate IsCString(s: Bytes) {
    forall i :: 0 <= i < |s| ==> s[i] != 0
  }

  /** The position of the first dot, or the length. */
  function DotFrom(s: Bytes, i: nat): (d: nat)
    requires i <= |s|
    ensures i <= d <= |s| && (d < |s| ==> s[d] == DOT)
    ensures forall j :: i <= j < d ==> s[j] != DOT
    decreases |s| - i
  {
    if i == |s| || s[i] == DOT then i else DotFrom(s, i + 1)
  }

  /** At most `n` bytes, upper-cased and padded with spaces. */
  function Field(s: Bytes, n: nat): (r: Bytes)
    ensures |r| == n
  {
    seq(n, i requires 0 <= i < n => if i < |s| then Upper(s[i]) else SPACE)
  }

  /** The stored form of a name: up to eight bytes before the first dot, up to three after. */
  function To83(s: Bytes): (r: Bytes)
    ensures |r| == 11
  {
    var d := DotFrom(s, 0);
    Field(s[..d], 8) + Field(if d < |s| then s[d + 1..] else [], 3)
  }

  /** A stored name never begins with the end mark. */
  lemma To83NotEnd(s: Bytes)
    requires IsCString(s)
    ensures To83(s)[0] != 0
  {
  }

  lemma {:induction false} DotIgnoresCase(s: Bytes, i: nat)
    requires i <= |s|
    ensures DotFrom(UpperAll(s), i) == DotFrom(s, i)
    decreases |s| - i
  {
    if i < |s| {
      DotIgnoresCase(s, i + 1);
    }
  }

  // ---- what the stored form says ----

  /** Every name is a stem without a dot, or a stem, a dot and an extension. */
  function NameOf(stem: Bytes, ext: Option<Bytes>): Bytes {
    match ext case None => stem case Some(e) => stem + [DOT] + e
  }

  function ByteOr(s: Bytes, i: nat, other: u8): u8 {
    if i < |s| then s[i] else other
  }

  lemma {:induction false} DotIs(s: Bytes, i: nat, d: nat)
    requires i <= d <= |s| && (d < |s| ==> s[d] == DOT) && forall j :: i <= j < d ==> s[j] != DOT
    ensures DotFrom(s, i) == d
    decreases d - i
  {
    if i < d {
      DotIs(s, i + 1, d);
    }
  }

  lemma Stored(stem: Bytes, ext: Option<Bytes>)
    requires DOT !in stem
    ensures var e := if ext.Some? then ext.value else [];
            To83(NameOf(stem, ext)) == Field(stem, 8) + Field(e, 3)
  {
    var s := NameOf(stem, ext);
    DotIs(s, 0, |stem|);
    assert s[..|stem|] == stem;
    if ext.Some? {
      assert s[|stem| + 1..] == ext.value;
    }
  }

  /** The first eight stored bytes are those of the stem, the other three those of the
      extension, in upper case, with blanks after them. */
  lemma StoredBytes(stem: Bytes, ext: Option<Bytes>, i: nat)
    requires DOT !in stem && i < 11
    ensures To83(NameOf(stem, ext))[i]
            == if i < 8 then Upper(ByteOr(stem, i, SPACE))
               else Upper(ByteOr(if ext.Some? then ext.value else [], i - 8, SPACE))
  {
    Stored(stem, ext);
    FieldsAt(stem, if ext.Some? then ext.value else [], i);
  }

  lemma FieldsAt(stem: Bytes, e: Bytes, i: nat)
    requires i < 11
    ensures (Field(stem, 8) + Field(e, 3))[i]
            == if i < 8 then Upper(ByteOr(stem, i, SPACE)) else Upper(ByteOr(e, i - 8, SPACE))
  {
  }

  /** The same letter, in either case. */
  predicate SameLetter(x: u8, y: u8) {
    x == y || ('A' as int <= x <= 'Z' as int && y == x + 32) || ('A' as int <= y <= 'Z' as int && x == y + 32)
  }

  /** Names that differ only in case. */
  ghost predicate SameUpToCase(s: Bytes, t: Bytes) {
    |s| == |t| && forall i :: 0 <= i < |s| ==> SameLetter(s[i], t[i])
  }

  lemma UpperTells(x: u8, y: u8)
    ensures Upper(x) == Upper(y) <==> SameLetter(x, y)
  {
  }

  lemma UpperAllTells(s: Bytes, t: Bytes)
    ensures UpperAll(s) == UpperAll(t) <==> SameUpToCase(s, t)
  {
    if UpperAll(s) == UpperAll(t) {
      forall i | 0 <= i < |s| ensures SameLetter(s[i], t[i]) {
        assert UpperAll(s)[i] == UpperAll(t)[i];
      }
    }
  }

  /** Names that differ only in case are the same stored name. */
  lemma CaseInsensitive(s: Bytes, t: Bytes)
    requires SameUpToCase(s, t)
    ensures To83(s) == To83(t)
  {
    UpperAllTells(s, t);
    DotIgnoresCase(s, 0);
    DotIgnoresCase(t, 0);
    var d := DotFrom(s, 0);
    assert Field(s[..d], 8) == Field(t[..d], 8);
    if d < |s| {
      assert Field(s[d + 1..], 3) == Field(t[d + 1..], 3);
    }
  }

  // ---- and back ----

  /** The bytes that are not blank. */
  function NonBlank(s: Bytes): (r: Bytes)
    ensures |r| <= |s|
  {
    if s == [] then []
    else NonBlank(s[..|s| - 1]) + if s[|s| - 1] == SPACE then [] else [s[|s| - 1]]
  }

  /** The name a stored form is listed under. */
  function From83(raw: Bytes): Bytes
    requires |raw| == 11
  {
    NonBlank(raw[..8]) + if raw[8] == SPACE then [] else [DOT] + NonBlank(raw[8..])
  }

  method FromFat83(raw: Bytes) returns (out: Bytes)
    requires |raw| == 11
    ensures out == From83(raw)
  {
    out := [];
    for i := 0 to 8
      invariant out == NonBlank(raw[..i])
    {
      assert raw[..i + 1][..i] == raw[..i];
      if raw[i] != SPACE {
        out := out + [raw[i]];
      }
    }
    if raw[8] != SPACE {
      ghost var stem := out;
      out := out + [DOT];
      for i := 8 to 11
        invariant out == stem + [DOT] + NonBlank(raw[8..i])
      {
        assert raw[8..i + 1][..i - 8] == raw[8..i];
        if raw[i] != SPACE {
          out := out + [raw[i]];
        }
      }
      assert raw[8..11] == raw[8..];
    }
  }

  /** What a field of `n` bytes gives back: all of `s` exactly if it fits and has no blank. */
  lemma {:induction false} FieldBack(s: Bytes, n: nat)
    ensures |NonBlank(Field(s, n))| <= |s|
    ensures |NonBlank(Field(s, n))| == |s| <==> |s| <= n && SPACE !in s
    ensures |s| <= n && SPACE !in s ==> NonBlank(Field(s, n)) == UpperAll(s)
    decreases n
  {
    if n > 0 {
      var f := Field(s, n);
      if |s| < n {
        assert f[..n - 1] == Field(s, n - 1);
        FieldBack(s, n - 1);
      } else {
        var t := s[..n - 1];
        assert f[..n - 1] == Field(t, n - 1);
        FieldBack(t, n - 1);
        assert s[..n] == t + [s[n - 1]];
        if |s| == n {
          assert s == t + [s[n - 1]];
          assert UpperAll(s) == UpperAll(t) + [Upper(s[n - 1])];
        }
      }
    } else {
      assert Field(s, 0) == [];
    }
  }

  /** A name of the 8.3 form: it fits, has no blank, and something after its dot if it has one. */
  predicate Plain(stem: Bytes, ext: Option<Bytes>) {
    && |stem| <= 8 && DOT !in stem && SPACE !in stem
    && (ext.Some? ==> 0 < |ext.value| <= 3 && SPACE !in ext.value)
  }

  lemma Listed(stem: Bytes, ext: Option<Bytes>, e: Bytes)
    requires DOT !in stem && e == if ext.Some? then ext.value else []
    ensures From83(To83(NameOf(stem, ext)))
            == NonBlank(Field(stem, 8)) + if e == [] || e[0] == SPACE then [] else [DOT] + NonBlank(Field(e, 3))
  {
    var raw := To83(NameOf(stem, ext));
    Stored(stem, ext);
    assert raw[..8] == Field(stem, 8) && raw[8..] == Field(e, 3);
    assert raw[8] == Field(e, 3)[0];
  }

  lemma UpperName(stem: Bytes, ext: Option<Bytes>)
    ensures UpperAll(NameOf(stem, ext)) == UpperAll(stem) + if ext.None? then [] else [DOT] + UpperAll(ext.value)
  {
  }

  /** A name is listed as it was given, in upper case, exactly if it is of the 8.3 form. */
  lemma ReadsBack(stem: Bytes, ext: Option<Bytes>)
    requires DOT !in stem
    ensures From83(To83(NameOf(stem, ext))) == UpperAll(NameOf(stem, ext)) <==> Plain(stem, ext)
  {
    var e := if ext.Some? then ext.value else [];
    Listed(stem, ext, e);
    UpperName(stem, ext);
    FieldBack(stem, 8);
    FieldBack(e, 3);
    if !Plain(stem, ext) {
      assert |From83(To83(NameOf(stem, ext)))| < |NameOf(stem, ext)|;
    }
  }

  /** Two names of the 8.3 form are stored alike exactly if they differ only in case. */
  lemma StoredAlike(s: Bytes, e: Option<Bytes>, t: Bytes, f: Option<Bytes>)
    requires Plain(s, e) && Plain(t, f)
    ensures To83(NameOf(s, e)) == To83(NameOf(t, f)) <==> SameUpToCase(NameOf(s, e), NameOf(t, f))
  {
    ReadsBack(s, e);
    ReadsBack(t, f);
    UpperAllTells(NameOf(s, e), NameOf(t, f));
    if SameUpToCase(NameOf(s, e), NameOf(t, f)) {
      CaseInsensitive(NameOf(s, e), NameOf(t, f));
    }
  }

  method ToFat83(input: Bytes) returns (out: Bytes)
    requires IsCString(input)
    ensures out == To83(input)
  {
    out := seq(11, i => SPACE);
    ghost var d := DotFrom(input, 0);
    var i, j := 0, 0;
    while i < |input| && input[i] != DOT && j < 8
      invariant i == j <= 8 && i <= d && |out| == 11
      invariant forall m :: 0 <= m < 11 ==> out[m] == if m < j then Upper(input[m]) else SPACE
    {
      var c := input[i];
      i := i + 1;
      if 97 <= c <= 122 {
        c := c - 32;
      }
      out := out[j := c];
      j := j + 1;
    }
    while i < |input| && input[i] != DOT
      invariant j <= i <= d
    {
      i := i + 1;
    }
    assert i == d && j == Min(8, d);
    ghost var base := out;
    assert base[..8] == Field(input[..d], 8);
    ghost var ext := if d < |input| then input[d + 1..] else [];
    if i < |input| {
      i := i + 1;
      var k := 8;
      while i < |input| && k < 11
        invariant 8 <= k <= 11 && i == d + 1 + (k - 8) <= |input| && |out| == 11
        invariant out[..8] == base[..8]
        invariant forall m :: 0 <= m < k - 8 ==> out[8 + m] == Upper(ext[m])
        invariant forall m :: k <= m < 11 ==> out[m] == SPACE
      {
        var c := input[i];
        i := i + 1;
        if 97 <= c <= 122 {
          c := c - 32;
        }
        out := out[k := c];
        k := k + 1;
      }
    }
    assert out[8..] == Field(ext, 3);
    assert out == out[..8] + out[8..];
  }
}
