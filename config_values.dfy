/** extract_config_val: the value of a `key = "value"` line, cut out of the line buffer by
    writing a NUL over the line's last quote. */
module ConfigValues {
  import opened Types
  import opened CStrings

  const Marker: string := " = \""
  const Quote: char := '"'

  /** The C string extract_config_val returns for a line s: it starts just after the first
      ` = "` and ends at the last quote of the line. When that last quote is the marker's own,
      the NUL lands in front of the value, which then runs to the end of the line. */
  function ConfigValue(s: string): Option<string>
  {
    match Find(s, Marker)
    case None => None
    case Some(b) =>
      match LastIndex(s, Quote)
      case None => None
      case Some(e) => Some(if e < b then s[b..] else s[b..e])
  }

  /** The C string left at the start of the line buffer once the value has been extracted. */
  function AfterExtract(s: string): string
  {
    match ConfigValue(s)
    case None => s
    case Some(_) => s[..LastIndex(s, Quote).value]
  }

  lemma MarkerEndsInQuote(s: string, i: nat)
    requires OccursAt(s, Marker, i)
    ensures s[i + 1] == '=' && s[i + 2] == ' ' && s[i + 3] == Quote
  {
    assert s[i..i + 4][1] == Marker[1];
    assert s[i..i + 4][2] == Marker[2];
    assert s[i..i + 4][3] == Marker[3];
  }

  /** When the marker occurs, its own quote guarantees a last quote no earlier than it. */
  lemma MarkerHasQuote(s: string, b: nat)
    requires Find(s, Marker) == Some(b)
    ensures 4 <= b <= |s| && s[b - 1] == Quote
    ensures LastIndex(s, Quote).Some? && LastIndex(s, Quote).value + 1 >= b
  {
    FindIsFirstOccurrence(s, Marker);
    MarkerEndsInQuote(s, b - 4);
    LastIndexIsLast(s, Quote);
  }

  /** A value is found exactly when the line contains the marker. */
  lemma ConfigValueFound(s: string)
    ensures ConfigValue(s).Some? <==> exists i: nat :: OccursAt(s, Marker, i)
  {
    FindIsFirstOccurrence(s, Marker);
    match Find(s, Marker)
    case None =>
    case Some(b) =>
      MarkerHasQuote(s, b);
      assert OccursAt(s, Marker, b - 4);
  }

  /** The value is exactly the text between the first marker and the last quote of the line,
      and the line is cut at that quote. */
  lemma ConfigValueBetween(s: string, b: nat, e: nat)
    requires 4 <= b <= e < |s| && OccursAt(s, Marker, b - 4)
    requires forall i: nat :: i < b - 4 ==> !OccursAt(s, Marker, i)
    requires s[e] == Quote && forall j :: e < j < |s| ==> s[j] != Quote
    ensures ConfigValue(s) == Some(s[b..e])
    ensures AfterExtract(s) == s[..e]
  {
    FindAt(s, Marker, b);
    LastIndexAt(s, Quote, e);
  }

  /** With no quote after the marker, the NUL goes over the marker's quote and the value is
      the rest of the line. */
  lemma ConfigValueUnclosed(s: string, b: nat)
    requires 4 <= b <= |s| && OccursAt(s, Marker, b - 4)
    requires forall i: nat :: i < b - 4 ==> !OccursAt(s, Marker, i)
    requires forall j :: b <= j < |s| ==> s[j] != Quote
    ensures ConfigValue(s) == Some(s[b..])
    ensures AfterExtract(s) == s[..b - 1]
  {
    FindAt(s, Marker, b);
    MarkerEndsInQuote(s, b - 4);
    LastIndexAt(s, Quote, b - 1);
  }

  /** A line with no quote has no marker and so no value. */
  lemma NoQuoteNoValue(s: string)
    requires Quote !in s
    ensures ConfigValue(s) == None && AfterExtract(s) == s
  {
    forall i: nat | i + 4 <= |s|
      ensures !OccursAt(s, Marker, i)
    {
      assert s[i..i + 4][3] == s[i + 3];
      assert s[i + 3] in s;
    }
    FindIsFirstOccurrence(s, Marker);
  }

  /** Every occurrence of the marker in k + Marker + rest, where k has no quote, is at or
      after |k|. */
  lemma MarkerAfterKey(k: string, rest: string)
    requires Quote !in k
    ensures forall i: nat :: i < |k| ==> !OccursAt(k + Marker + rest, Marker, i)
  {
    var s := k + Marker + rest;
    forall i: nat | i < |k|
      ensures !OccursAt(s, Marker, i)
    {
      if i + 3 < |k| {
        assert s[i + 3] == k[i + 3];
        assert k[i + 3] in k;
      } else {
        assert s[i + 3] == Marker[i + 3 - |k|];
      }
      assert i + 4 <= |s| ==> s[i..i + 4][3] == s[i + 3];
    }
  }

  /** For `k = "v"` followed by quote-free trailing text t, the value is v and the line is cut
      just after it. */
  lemma ConfigValueOfPair(k: string, v: string, t: string)
    requires Quote !in k && Quote !in v && Quote !in t
    ensures ConfigValue(k + Marker + v + [Quote] + t) == Some(v)
    ensures AfterExtract(k + Marker + v + [Quote] + t) == k + Marker + v
  {
    var s := k + Marker + v + [Quote] + t;
    var b := |k| + 4;
    var e := b + |v|;
    assert s == k + Marker + (v + [Quote] + t);
    MarkerAfterKey(k, v + [Quote] + t);
    assert s[|k|..b] == Marker;
    forall j | e < j < |s|
      ensures s[j] != Quote
    {
      assert s[j] == t[j - e - 1];
      assert t[j - e - 1] in t;
    }
    assert s[b..e] == v;
    assert s[..e] == k + Marker + v;
    ConfigValueBetween(s, b, e);
  }

  /** For `k = "v` with no closing quote, the value is v, the rest of the line. */
  lemma ConfigValueOfUnclosedPair(k: string, v: string)
    requires Quote !in k && Quote !in v
    ensures ConfigValue(k + Marker + v) == Some(v)
    ensures AfterExtract(k + Marker + v) == k + " = "
  {
    var s := k + Marker + v;
    var b := |k| + 4;
    MarkerAfterKey(k, v);
    assert s[|k|..b] == Marker;
    forall j | b <= j < |s|
      ensures s[j] != Quote
    {
      assert s[j] == v[j - b];
      assert v[j - b] in v;
    }
    assert s[b..] == v;
    assert s[..b - 1] == k + " = ";
    ConfigValueUnclosed(s, b);
  }

  /** Extracting again from the cut line gives the same value when the value had its closing
      quote and holds no quote itself. */
  lemma ReextractPair(k: string, v: string, t: string)
    requires Quote !in k && Quote !in v && Quote !in t
    ensures ConfigValue(AfterExtract(k + Marker + v + [Quote] + t)) == Some(v)
  {
    ConfigValueOfPair(k, v, t);
    ConfigValueOfUnclosedPair(k, v);
  }

  /** Without a closing quote, extracting again from the cut line finds nothing: the cut went
      over the marker's own quote. */
  lemma ReextractUnclosed(k: string, v: string)
    requires Quote !in k && Quote !in v
    ensures ConfigValue(k + Marker + v) == Some(v)
    ensures ConfigValue(AfterExtract(k + Marker + v)) == None
  {
    ConfigValueOfUnclosedPair(k, v);
    assert Quote !in k + " = " by {
      assert forall x :: x in k + " = " ==> x in k || x in " = ";
    }
    NoQuoteNoValue(k + " = ");
  }

  /** An occurrence in a prefix of s is an occurrence in s. */
  lemma OccursInPrefix(s: string, n: nat, pat: string, i: nat)
    requires n <= |s| && OccursAt(s[..n], pat, i)
    ensures OccursAt(s, pat, i)
  {
    assert s[..n][i..i + |pat|] == s[i..i + |pat|];
  }

  /** Cutting s at n keeps its first marker, ending at b <= n, as the prefix's first marker. */
  lemma FindInPrefix(s: string, n: nat, b: nat)
    requires n <= |s| && Find(s, Marker) == Some(b) && b <= n
    ensures Find(s[..n], Marker) == Some(b)
  {
    var c := s[..n];
    FindIsFirstOccurrence(s, Marker);
    assert c[b - 4..b] == s[b - 4..b];
    forall i: nat | i < b - 4
      ensures !OccursAt(c, Marker, i)
    {
      if OccursAt(c, Marker, i) {
        OccursInPrefix(s, n, Marker, i);
      }
    }
    FindAt(c, Marker, b);
  }

  /** Cutting s in front of the end of its first marker leaves no marker. */
  lemma NoMarkerInShortPrefix(s: string, n: nat, b: nat)
    requires n <= |s| && Find(s, Marker) == Some(b) && n < b
    ensures Find(s[..n], Marker).None?
  {
    var c := s[..n];
    FindIsFirstOccurrence(s, Marker);
    FindIsFirstOccurrence(c, Marker);
    if Find(c, Marker).Some? {
      OccursInPrefix(s, n, Marker, Find(c, Marker).value - 4);
    }
  }

  /** Extracting a second time from the cut line gives a prefix of the first value, or
      nothing: the cut line holds the same first marker only when the cut lies after it, and
      its last quote can only lie earlier. */
  lemma ReextractIsPrefix(s: string)
    requires ConfigValue(s).Some?
    ensures ConfigValue(AfterExtract(s)).Some? ==>
      ConfigValue(AfterExtract(s)).value <= ConfigValue(s).value
  {
    var b := Find(s, Marker).value;
    MarkerHasQuote(s, b);
    var e := LastIndex(s, Quote).value;
    var c := s[..e];
    assert AfterExtract(s) == c;
    if e < b {
      NoMarkerInShortPrefix(s, e, b);
    } else {
      FindInPrefix(s, e, b);
      assert c[b - 1] == Quote;
      LastIndexIsLast(c, Quote);
      var e2 := LastIndex(c, Quote).value;
      if e2 < b {
        assert c[b..] == s[b..e];
      } else {
        assert c[b..e2] == s[b..e][..e2 - b];
      }
    }
  }

  /** The value of a C string line is a C string. */
  lemma ValueIsCString(s: string)
    requires IsCString(s) && ConfigValue(s).Some?
    ensures IsCString(ConfigValue(s).value)
  {
    var b := Find(s, Marker).value;
    MarkerHasQuote(s, b);
    var e := LastIndex(s, Quote).value;
    if e < b {
      SliceIsCString(s, b, |s|);
      assert s[b..] == s[b..|s|];
    } else {
      SliceIsCString(s, b, e);
    }
  }

  /** The buffer after extract_config_val wrote its NUL over index e of the line at p: the
      line's C string ends at the cut, the C string at b runs to the cut or, when the cut lies
      before b, to the line's own end. */
  lemma CutBuffer(s: seq<char>, p: nat, b: nat, e: nat)
    requires p < |s| && NulAt(s, p) < |s|
    requires b <= |CStr(s, p)| && e < |CStr(s, p)|
    ensures CStr(s[p + e := NUL], p) == CStr(s, p)[..e]
    ensures e < b ==> CStr(s[p + e := NUL], p + b) == CStr(s, p)[b..]
    ensures b <= e ==> CStr(s[p + e := NUL], p + b) == CStr(s, p)[b..e]
  {
    var n := NulAt(s, p);
    var t := s[p + e := NUL];
    NulAtIsFirstNul(s, p);
    CStrUpTo(t, p, p + e);
    if e < b {
      CStrUpTo(t, p + b, n);
    } else {
      CStrUpTo(t, p + b, p + e);
    }
  }

  /** t is what extract_config_val leaves of the buffer s when it returns beg for the line at
      p: the line's last quote became a NUL, beg starts the value's C string right after the
      first marker, and the line's C string ends at the cut. */
  predicate Extracted(s: seq<char>, t: seq<char>, p: nat, beg: nat)
    requires p < |s| && NulAt(s, p) < |s|
  {
    var line := CStr(s, p);
    && p + |Marker| <= beg < |s|
    && Find(line, Marker) == Some(beg - p)
    && LastIndex(line, Quote).Some?
    && t == s[p + LastIndex(line, Quote).value := NUL]
    && CStr(t, beg) == ConfigValue(line).value
    && CStr(t, p) == AfterExtract(line)
    && (t[beg - 1] == Quote || t[beg - 1] == NUL)
  }

  /** What extract_config_val leaves in a buffer s whose line at p has a value. */
  lemma ExtractedBuffer(s: seq<char>, p: nat, b: nat, e: nat)
    requires p < |s| && NulAt(s, p) < |s|
    requires Find(CStr(s, p), Marker) == Some(b) && LastIndex(CStr(s, p), Quote) == Some(e)
    ensures p + e < |s| && Extracted(s, s[p + e := NUL], p, p + b)
  {
    var line := CStr(s, p);
    MarkerHasQuote(line, b);
    CutBuffer(s, p, b, e);
    assert s[p + b - 1] == line[b - 1];
  }

  /** extract_config_val on the C string at index p of buf. On success the returned index
      starts the value's C string, and the line's last quote has become a NUL. */
  method ExtractConfigVal(buf: array<char>, p: nat) returns (beg: Option<nat>)
    requires p < buf.Length && NulAt(buf[..], p) < buf.Length
    modifies buf
    ensures beg.Some? == ConfigValue(CStr(old(buf[..]), p)).Some?
    ensures beg.None? ==> buf[..] == old(buf[..])
    ensures beg.Some? ==> Extracted(old(buf[..]), buf[..], p, beg.value)
  {
    var line := CStr(buf[..], p);
    var b := Find(line, Marker);
    if b.None? {
      return None;
    }
    var e := LastIndex(line, Quote);
    if e.None? {
      return None;
    }
    ghost var t := buf[..][p + e.value := NUL];
    ExtractedBuffer(buf[..], p, b.value, e.value);
    buf[p + e.value] := NUL;
    assert buf[..] == t;
    beg := Some(p + b.value);
  }
}
