/**
 * Key generation. Randomness is an input: `picks` is the stream of draws
 * the secure random source would make, one per character, and a draw `p`
 * chooses `chars[p % |chars|]`. The generator consumes the stream from the
 * front.
 */
module Keygen {
  import opened Wrappers
  import opened UrlTable

  /** Length of the public key (the generator's default length). */
  const KeyLength: nat := 5
  /** Length of the random part of the secret key. */
  const SuffixLength: nat := 8

  predicate IsAlphanumeric(c: char) {
    'A' <= c <= 'Z' || 'a' <= c <= 'z' || '0' <= c <= '9'
  }

  /** The characters from `lo` to `hi` in code-point order. */
  function CharRange(lo: char, hi: char): (r: string)
    requires lo <= hi && (hi as int) < 128
    ensures |r| == hi as int - lo as int + 1
    ensures forall c :: c in r <==> lo <= c <= hi
  {
    var r := seq(hi as int - lo as int + 1, i requires 0 <= i <= hi as int - lo as int => (lo as int + i) as char);
    CodePointsCovered(lo, hi, r);
    r
  }

  /** A string holding the code points from `lo` on, one per position, up to `hi`, holds every one of them. */
  lemma CodePointsCovered(lo: char, hi: char, r: string)
    requires lo <= hi && |r| == hi as int - lo as int + 1
    requires forall i :: 0 <= i < |r| ==> r[i] as int == lo as int + i
    ensures forall c :: lo <= c <= hi ==> c in r
  {
    forall c | lo <= c <= hi ensures c in r {
      assert r[c as int - lo as int] == c;
    }
  }

  /** The default alphabet: upper-case letters, then lower-case letters, then digits. */
  function DefaultChars(): (r: string)
    ensures |r| == 62
    ensures forall c :: c in r <==> IsAlphanumeric(c)
  {
    CharRange('A', 'Z') + CharRange('a', 'z') + CharRange('0', '9')
  }

  /** generate_random_key(length, chars): one chosen character per draw. */
  function GenerateRandomKey(length: nat, chars: string, picks: seq<nat>): (r: string)
    requires |chars| > 0 && length <= |picks|
    ensures |r| == length
    ensures forall i :: 0 <= i < |r| ==> r[i] in chars
  {
    seq(length, i requires 0 <= i < length => chars[picks[i] % |chars|])
  }

  /** The position of `c` in `chars`. */
  function IndexOf(chars: string, c: char): (k: nat)
    requires c in chars
    ensures k < |chars| && chars[k] == c
  {
    if chars[0] == c then 0 else 1 + IndexOf(chars[1..], c)
  }

  /** No key is out of reach: every string of the requested length over the
      alphabet is the outcome of some stream of draws. With the contract of
      GenerateRandomKey, the possible outcomes are exactly these strings. */
  lemma EveryKeyIsReachable(length: nat, chars: string, key: string)
    requires |chars| > 0 && |key| == length
    requires forall i :: 0 <= i < |key| ==> key[i] in chars
    ensures exists picks :: |picks| == length && GenerateRandomKey(length, chars, picks) == key
  {
    var picks := seq(length, i requires 0 <= i < length => IndexOf(chars, key[i]));
    var r := GenerateRandomKey(length, chars, picks);
    forall i | 0 <= i < length ensures r[i] == key[i] {
      assert picks[i] % |chars| == picks[i];
    }
    assert r == key;
  }

  /** A key of the default shape: five characters of the default alphabet. */
  predicate IsDefaultKey(key: string) {
    |key| == KeyLength && forall i :: 0 <= i < |key| ==> IsAlphanumeric(key[i])
  }

  /** The default call generate_random_key(): five draws over the default alphabet. */
  function DefaultKey(picks: seq<nat>): (r: string)
    requires KeyLength <= |picks|
    ensures IsDefaultKey(r)
  {
    GenerateRandomKey(KeyLength, DefaultChars(), picks)
  }

  /** What a run of the retry loop produces: the key, if the stream lasted
      until a free candidate appeared, and the draws left over. */
  datatype KeyDraw = KeyDraw(key: Option<string>, rest: seq<nat>)

  /** The outcome of create_unique_random_key on a table: candidates are
      drawn five draws at a time, and the first one that no ACTIVE row holds
      is the key. The loop in the source has no bound; here it stops when the
      stream cannot supply another candidate. */
  function FirstFreeKey(rows: seq<UrlRecord>, picks: seq<nat>): (d: KeyDraw)
    ensures |d.rest| <= |picks| && d.rest == picks[|picks| - |d.rest|..]
    ensures d.key.Some? ==> IsDefaultKey(d.key.value) && GetDbUrlByKey(rows, d.key.value).None?
    ensures d.key.None? ==> |d.rest| < KeyLength
    decreases |picks|
  {
    if |picks| < KeyLength then KeyDraw(None, picks)
    else
      var candidate := DefaultKey(picks);
      if GetDbUrlByKey(rows, candidate).Some? then FirstFreeKey(rows, picks[KeyLength..])
      else KeyDraw(Some(candidate), picks[KeyLength..])
  }

  /** create_unique_random_key: draw, and redraw while an active row holds
      the candidate. It only reads the table, which it receives as a value. */
  method CreateUniqueRandomKey(rows: seq<UrlRecord>, picks: seq<nat>) returns (key: Option<string>, rest: seq<nat>)
    ensures KeyDraw(key, rest) == FirstFreeKey(rows, picks)
  {
    if |picks| < KeyLength {
      return None, picks;
    }
    var candidate := DefaultKey(picks);
    rest := picks[KeyLength..];
    while GetDbUrlByKey(rows, candidate).Some?
      invariant FirstFreeKey(rows, picks) ==
        if GetDbUrlByKey(rows, candidate).Some? then FirstFreeKey(rows, rest)
        else KeyDraw(Some(candidate), rest)
      decreases |rest|
    {
      if |rest| < KeyLength {
        return None, rest;
      }
      candidate := DefaultKey(rest);
      rest := rest[KeyLength..];
    }
    key := Some(candidate);
  }

  /** A first candidate that only inactive rows hold (or no row at all) is
      taken at once: uniqueness is checked against active rows only, so the
      key of a deactivated row can be issued again. */
  lemma InactiveKeyIsReissued(rows: seq<UrlRecord>, picks: seq<nat>)
    requires KeyLength <= |picks|
    requires forall j :: 0 <= j < |rows| && rows[j].key == DefaultKey(picks) ==> !rows[j].isActive
    ensures FirstFreeKey(rows, picks) == KeyDraw(Some(DefaultKey(picks)), picks[KeyLength..])
  {
  }

  /** A first candidate that an active row holds is drawn again: the search
      goes on with the rest of the stream. With InactiveKeyIsReissued this
      makes the returned key the FIRST free candidate. */
  lemma ActiveKeyIsRedrawn(rows: seq<UrlRecord>, picks: seq<nat>)
    requires KeyLength <= |picks|
    requires exists j :: 0 <= j < |rows| && rows[j].key == DefaultKey(picks) && rows[j].isActive
    ensures FirstFreeKey(rows, picks) == FirstFreeKey(rows, picks[KeyLength..])
  {
  }

  /** Every whole candidate the stream can supply is held by an active row. */
  predicate AllCandidatesTaken(rows: seq<UrlRecord>, picks: seq<nat>)
    decreases |picks|
  {
    |picks| < KeyLength ||
    (GetDbUrlByKey(rows, DefaultKey(picks)).Some? && AllCandidatesTaken(rows, picks[KeyLength..]))
  }

  /** The search comes back empty exactly when every candidate was taken:
      the finite form of a loop that would otherwise keep drawing. */
  lemma {:induction false} NoKeyIffAllTaken(rows: seq<UrlRecord>, picks: seq<nat>)
    ensures FirstFreeKey(rows, picks).key.None? <==> AllCandidatesTaken(rows, picks)
    decreases |picks|
  {
    if KeyLength <= |picks| && GetDbUrlByKey(rows, DefaultKey(picks)).Some? {
      NoKeyIffAllTaken(rows, picks[KeyLength..]);
    }
  }
}
