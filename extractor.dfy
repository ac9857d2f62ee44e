/**
 * The mint-address extractor: a pure search over message text. A run of
 * ASCII letters and digits right after a fixed marker wins; failing that, the
 * leftmost 44-character window over the base58 alphabet is taken.
 */
module MintExtractor {
  import opened Wrappers

  /**
   * The marker the regular expression's look-behind requires: the UTF-8 bytes
   * of the banknote emoji read as Windows-1252, followed by a colon.
   */
  const Marker: string := "\U{F0}\U{178}\U{2019}\U{B5}:"

  /** The 58 characters a fallback address is drawn from, in source order. */
  const Base58Alphabet: string :=
    "123456789ABCDEFGH" + "JKLMNPQRSTUVWXYZ" + "abcdefghijk" + "mnopqrstuvwxyz"

  /** The length of a fallback address. */
  const AddressLength: nat := 44

  /** The character class `[A-Za-z0-9]`. */
  predicate IsAlnum(c: char) {
    'A' <= c <= 'Z' || 'a' <= c <= 'z' || '0' <= c <= '9'
  }

  predicate IsBase58(c: char) {
    c in Base58Alphabet
  }

  /** `(?<=marker)[A-Za-z0-9]` matches at index `p`. */
  predicate MarkerMatchAt(s: string, p: int) {
    |Marker| <= p < |s| && s[p - |Marker|..p] == Marker && IsAlnum(s[p])
  }

  /** `[base58]{44}` matches at index `p`. */
  predicate WindowAt(s: string, p: int) {
    0 <= p && p + AddressLength <= |s| &&
    forall i | p <= i < p + AddressLength :: IsBase58(s[i])
  }

  /** The end of the greedy `[A-Za-z0-9]+` run that starts at `p`. */
  function RunEnd(s: string, p: nat): (e: nat)
    requires p <= |s|
    ensures p <= e <= |s|
    ensures forall i | p <= i < e :: IsAlnum(s[i])
    ensures e == |s| || !IsAlnum(s[e])
    decreases |s| - p
  {
    if p < |s| && IsAlnum(s[p]) then RunEnd(s, p + 1) else p
  }

  /** The leftmost index at or after `p` where the marker pattern matches. */
  function FindMarker(s: string, p: nat): (r: Option<nat>)
    requires p <= |s|
    ensures r.Some? ==> p <= r.value && MarkerMatchAt(s, r.value)
    ensures forall q | p <= q && (r.None? || q < r.value) :: !MarkerMatchAt(s, q)
    decreases |s| - p
  {
    if p == |s| then None
    else if MarkerMatchAt(s, p) then Some(p)
    else FindMarker(s, p + 1)
  }

  /** The leftmost index at or after `p` where a base58 window starts. */
  function FindWindow(s: string, p: nat): (r: Option<nat>)
    requires p <= |s|
    ensures r.Some? ==> p <= r.value && WindowAt(s, r.value)
    ensures forall q | p <= q && (r.None? || q < r.value) :: !WindowAt(s, q)
    decreases |s| - p
  {
    if p + AddressLength > |s| then None
    else if WindowAt(s, p) then Some(p)
    else FindWindow(s, p + 1)
  }

  /** `mint_address_if_exists`: the address a message carries, if any. */
  function Extract(message: Option<string>): (r: Option<string>)
    ensures message.None? || message.value == [] ==> r.None?
    ensures r.Some? ==> |r.value| > 0
  {
    if message.None? || message.value == [] then None
    else
      var s := message.value;
      match FindMarker(s, 0)
      case Some(p) => Some(s[p..RunEnd(s, p)])
      case None =>
        match FindWindow(s, 0)
        case Some(p) => Some(s[p..p + AddressLength])
        case None => None
  }

  /** No marker match anywhere in `s`. */
  predicate NoMarker(s: string) {
    forall q | 0 <= q < |s| :: !MarkerMatchAt(s, q)
  }

  /** No base58 window anywhere in `s`. */
  predicate NoWindow(s: string) {
    forall q | 0 <= q < |s| :: !WindowAt(s, q)
  }

  /** The search finds the leftmost marker match. */
  lemma FirstMarkerAt(s: string, p: nat)
    requires MarkerMatchAt(s, p)
    requires forall q | 0 <= q < p :: !MarkerMatchAt(s, q)
    ensures FindMarker(s, 0) == Some(p)
  {
  }

  /** The greedy run from `p` ends at the first non-alphanumeric index. */
  lemma RunEndAt(s: string, p: nat, e: nat)
    requires p <= e <= |s|
    requires forall i | p <= i < e :: IsAlnum(s[i])
    requires e == |s| || !IsAlnum(s[e])
    ensures RunEnd(s, p) == e
  {
  }

  /**
   * When the leftmost marker match is at `p`, the result is the maximal
   * alphanumeric run starting there, whatever base58 windows the text has.
   */
  lemma ExtractMarker(s: string, p: nat)
    requires MarkerMatchAt(s, p)
    requires forall q | 0 <= q < p :: !MarkerMatchAt(s, q)
    ensures Extract(Some(s)).Some?
    ensures var a := Extract(Some(s)).value;
      p + |a| <= |s| && a == s[p..p + |a|] && |a| > 0 &&
      (forall i | 0 <= i < |a| :: IsAlnum(a[i])) &&
      (p + |a| == |s| || !IsAlnum(s[p + |a|]))
  {
    var r := FindMarker(s, 0);
    assert r == Some(p);
  }

  /**
   * Without any marker match, the result is the leftmost base58 window.
   */
  lemma ExtractWindow(s: string, p: nat)
    requires NoMarker(s)
    requires WindowAt(s, p)
    requires forall q | 0 <= q < p :: !WindowAt(s, q)
    ensures Extract(Some(s)) == Some(s[p..p + AddressLength])
  {
    assert FindMarker(s, 0).None?;
    var r := FindWindow(s, 0);
    assert r == Some(p);
  }

  /** A message yields nothing exactly when it is empty or matches neither pattern. */
  lemma ExtractNoneIff(message: Option<string>)
    ensures Extract(message).None? <==>
      message.None? || message.value == [] ||
      (NoMarker(message.value) && NoWindow(message.value))
  {
    if message.Some? && message.value != [] {
      var s := message.value;
      if FindMarker(s, 0).None? && FindWindow(s, 0).None? {
        NoMarkerWhenNotFound(s);
        NoWindowWhenNotFound(s);
      }
    }
  }

  lemma NoMarkerWhenNotFound(s: string)
    requires FindMarker(s, 0).None?
    ensures NoMarker(s)
  {
  }

  lemma NoWindowWhenNotFound(s: string)
    requires FindWindow(s, 0).None?
    ensures NoWindow(s)
  {
  }

  /** The 44 characters of a base58 window include no `0`, `O`, `I` or `l`. */
  lemma WindowIsUnambiguous(s: string, p: nat)
    requires WindowAt(s, p)
    ensures var a := s[p..p + AddressLength];
      '0' !in a && 'O' !in a && 'I' !in a && 'l' !in a
  {
    var a := s[p..p + AddressLength];
    forall i | 0 <= i < |a| ensures a[i] !in "0OIl" {
      assert a[i] == s[p + i];
      Base58Iff(a[i]);
    }
  }

  /**
   * Every result is a piece of the message: either the marker run, or a
   * 44-character window free of `0`, `O`, `I` and `l`.
   */
  lemma ExtractIsSubstring(s: string)
    requires Extract(Some(s)).Some?
    ensures var a := Extract(Some(s)).value;
      (exists p | MarkerMatchAt(s, p) :: p + |a| <= |s| && s[p..p + |a|] == a) ||
      (NoMarker(s) && |a| == AddressLength &&
       (exists p | WindowAt(s, p) :: s[p..p + AddressLength] == a) &&
       '0' !in a && 'O' !in a && 'I' !in a && 'l' !in a)
  {
    var a := Extract(Some(s)).value;
    var m := FindMarker(s, 0);
    if m.Some? {
      var p := m.value;
      assert p + |a| <= |s| && s[p..p + |a|] == a;
    } else {
      NoMarkerWhenNotFound(s);
      var p := FindWindow(s, 0).value;
      assert s[p..p + AddressLength] == a;
      WindowIsUnambiguous(s, p);
    }
  }

  lemma DigitsAndUpperToH(c: char)
    ensures c in "123456789ABCDEFGH" <==> '1' <= c <= '9' || 'A' <= c <= 'H'
  {
  }

  lemma UpperFromJ(c: char)
    ensures c in "JKLMNPQRSTUVWXYZ" <==> 'J' <= c <= 'N' || 'P' <= c <= 'Z'
  {
  }

  lemma LowerToK(c: char)
    ensures c in "abcdefghijk" <==> 'a' <= c <= 'k'
  {
  }

  lemma LowerFromM(c: char)
    ensures c in "mnopqrstuvwxyz" <==> 'm' <= c <= 'z'
  {
  }

  /**
   * The alphabet has 58 characters: exactly the ASCII letters and digits
   * other than `0`, `O`, `I` and `l`.
   */
  lemma Base58Iff(c: char)
    ensures |Base58Alphabet| == 58
    ensures IsBase58(c) <==> IsAlnum(c) && c != '0' && c != 'O' && c != 'I' && c != 'l'
  {
    DigitsAndUpperToH(c);
    UpperFromJ(c);
    LowerToK(c);
    LowerFromM(c);
  }

  /** A base58 run of at least 44 characters starts a window. */
  lemma RunStartsWindow(pre: string, run: string)
    requires |run| >= AddressLength
    requires forall i | 0 <= i < |run| :: IsBase58(run[i])
    ensures WindowAt(pre + run, |pre|)
  {
    var s := pre + run;
    forall i | |pre| <= i < |pre| + AddressLength ensures IsBase58(s[i]) {
      assert s[i] == run[i - |pre|];
    }
  }

  /**
   * No window starts inside text that has none and ends in a non-base58
   * character, whatever follows it.
   */
  lemma NoWindowInside(pre: string, run: string)
    requires NoWindow(pre)
    requires pre == [] || !IsBase58(pre[|pre| - 1])
    ensures forall q | 0 <= q < |pre| :: !WindowAt(pre + run, q)
  {
    var s := pre + run;
    forall q | 0 <= q < |pre| ensures !WindowAt(s, q) {
      if q + AddressLength <= |pre| {
        if WindowAt(s, q) {
          forall i | q <= i < q + AddressLength ensures IsBase58(pre[i]) {
            assert s[i] == pre[i];
          }
          assert WindowAt(pre, q);
        }
      } else {
        assert s[|pre| - 1] == pre[|pre| - 1];
      }
    }
  }

  /**
   * A base58 run of 44 or more characters, after text with no window that
   * ends in a non-base58 character, yields its first 44 characters.
   */
  lemma LongRunYieldsFirst44(pre: string, run: string)
    requires NoMarker(pre + run)
    requires NoWindow(pre)
    requires pre == [] || !IsBase58(pre[|pre| - 1])
    requires |run| >= AddressLength
    requires forall i | 0 <= i < |run| :: IsBase58(run[i])
    ensures Extract(Some(pre + run)) == Some(run[..AddressLength])
  {
    var s := pre + run;
    RunStartsWindow(pre, run);
    NoWindowInside(pre, run);
    ExtractWindow(s, |pre|);
    assert s[|pre|..|pre| + AddressLength] == run[..AddressLength];
  }

  /**
   * A message that opens with the marker, then an alphanumeric run, then a
   * non-alphanumeric character or nothing, yields exactly that run.
   */
  lemma MarkerThenRun(run: string, tail: string)
    requires |run| > 0 && forall i | 0 <= i < |run| :: IsAlnum(run[i])
    requires tail == [] || !IsAlnum(tail[0])
    ensures Extract(Some(Marker + run + tail)) == Some(run)
  {
    var s := Marker + run + tail;
    var p := |Marker|;
    var e := p + |run|;
    assert MarkerMatchAt(s, p) by {
      assert s[..p] == Marker;
      assert s[p] == run[0];
    }
    FirstMarkerAt(s, p);
    forall i | p <= i < e ensures IsAlnum(s[i]) {
      assert s[i] == run[i - p];
    }
    assert e == |s| || s[e] == tail[0];
    RunEndAt(s, p, e);
    assert s[p..e] == run;
  }

  /** The marker followed by `abc123` and a non-alphanumeric tail yields `abc123`. */
  lemma MarkerThenAbc123(tail: string)
    requires tail == [] || !IsAlnum(tail[0])
    ensures Extract(Some(Marker + "abc123" + tail)) == Some("abc123")
  {
    MarkerThenRun("abc123", tail);
  }
}
