/** String operations the backend relies on: lower-casing (String.toLowerCase
    and PostgreSQL's case-insensitive matching), substring containment (Prisma's
    `contains` filter), and String.split on a single character. */
module Text {

  /** The characters lower-cased by this model: ASCII capitals, the Latin-1
      capitals (U+00C0 to U+00DE except the multiplication sign U+00D7), and
      the Romanian capitals outside Latin-1 (Ă, Ş, Ţ, Ș, Ț). */
  predicate IsUpper(c: char) {
    || ('A' <= c <= 'Z')
    || ('À' <= c <= 'Þ' && c != '×')
    || c == 'Ă' || c == 'Ş' || c == 'Ţ' || c == 'Ș' || c == 'Ț'
  }

  function LowerChar(c: char): (r: char)
    ensures !IsUpper(r)
    ensures !IsUpper(c) ==> r == c
    ensures IsUpper(c) ==> r as int == c as int + (if c <= 'Þ' then 32 else 1)
  {
    if 'A' <= c <= 'Z' || ('À' <= c <= 'Þ' && c != '×') then (c as int + 32) as char
    else if IsUpper(c) then (c as int + 1) as char
    else c
  }

  /** String.prototype.toLowerCase over the modelled alphabet. */
  function Lower(s: string): (r: string)
    ensures |r| == |s|
    ensures forall i :: 0 <= i < |s| ==> r[i] == LowerChar(s[i])
    ensures forall i :: 0 <= i < |r| ==> !IsUpper(r[i])
    ensures (forall i :: 0 <= i < |s| ==> !IsUpper(s[i])) ==> r == s
  {
    seq(|s|, i requires 0 <= i < |s| => LowerChar(s[i]))
  }

  lemma LowerIdempotent(s: string)
    ensures Lower(Lower(s)) == Lower(s)
  {
  }

  lemma LowerSlice(s: string, i: nat, j: nat)
    requires i <= j <= |s|
    ensures Lower(s)[i..j] == Lower(s[i..j])
  {
  }

  /** `p` is a prefix of `s`. */
  predicate IsPrefix(p: string, s: string) {
    |p| <= |s| && s[..|p|] == p
  }

  /** `q` occurs in `s` starting at position `i`. */
  ghost predicate OccursAt(s: string, q: string, i: int) {
    0 <= i && i + |q| <= |s| && s[i..i + |q|] == q
  }

  /** Substring test, as Prisma's case-sensitive `contains` filter
      (SQL `LIKE '%q%'`) performs it. */
  function Contains(s: string, q: string): bool
  {
    IsPrefix(q, s) || (|s| > 0 && Contains(s[1..], q))
  }

  /** Contains is exactly "q occurs somewhere in s". */
  lemma {:induction false} ContainsIff(s: string, q: string)
    ensures Contains(s, q) <==> exists i :: OccursAt(s, q, i)
  {
    if IsPrefix(q, s) {
      assert OccursAt(s, q, 0);
    } else if |s| == 0 {
    } else {
      ContainsIff(s[1..], q);
      if exists i :: OccursAt(s[1..], q, i) {
        var i :| OccursAt(s[1..], q, i);
        assert s[1..][i..i + |q|] == s[i + 1..i + 1 + |q|];
        assert OccursAt(s, q, i + 1);
      }
      if exists i :: OccursAt(s, q, i) {
        var i :| OccursAt(s, q, i);
        assert i != 0;
        assert s[1..][i - 1..i - 1 + |q|] == s[i..i + |q|];
        assert OccursAt(s[1..], q, i - 1);
      }
    }
  }

  /** Prisma's `contains` with `mode: 'insensitive'` (SQL `ILIKE '%q%'`). */
  function ContainsInsensitive(s: string, q: string): bool {
    Contains(Lower(s), Lower(q))
  }

  /** An exact occurrence is also a case-insensitive one. */
  lemma ContainsIsInsensitive(s: string, q: string)
    requires Contains(s, q)
    ensures ContainsInsensitive(s, q)
  {
    ContainsIff(s, q);
    var i :| OccursAt(s, q, i);
    LowerSlice(s, i, i + |q|);
    assert OccursAt(Lower(s), Lower(q), i);
    ContainsIff(Lower(s), Lower(q));
  }

  /** The case of the query does not matter to an insensitive match. */
  lemma InsensitiveIgnoresQueryCase(s: string, q: string)
    ensures ContainsInsensitive(s, q) == ContainsInsensitive(s, Lower(q))
  {
    LowerIdempotent(q);
  }

  /** String.prototype.split with a one-character separator: the pieces
      between separators, including empty ones; "".split(' ') is [""]. */
  function SplitOn(s: string, sep: char): (parts: seq<string>)
    ensures |parts| >= 1
    ensures forall k :: 0 <= k < |parts| ==> sep !in parts[k]
  {
    if |s| == 0 then [""]
    else if s[0] == sep then [""] + SplitOn(s[1..], sep)
    else
      var rest := SplitOn(s[1..], sep);
      [[s[0]] + rest[0]] + rest[1..]
  }

  /** Array.prototype.join: the inverse of SplitOn. */
  function Join(parts: seq<string>, sep: char): string {
    if |parts| == 0 then ""
    else if |parts| == 1 then parts[0]
    else parts[0] + [sep] + Join(parts[1..], sep)
  }

  lemma {:induction false} JoinSplit(s: string, sep: char)
    ensures Join(SplitOn(s, sep), sep) == s
  {
    if |s| == 0 {
    } else if s[0] == sep {
      JoinSplit(s[1..], sep);
      assert s == [sep] + s[1..];
    } else {
      var rest := SplitOn(s[1..], sep);
      JoinSplit(s[1..], sep);
      if |rest| == 1 {
        assert s == [s[0]] + rest[0];
      } else {
        assert Join(rest, sep) == rest[0] + [sep] + Join(rest[1..], sep);
        assert s == [s[0]] + s[1..];
      }
    }
  }

  /** A word free of the separator, followed by the separator, is split off whole. */
  lemma {:induction false} SplitWord(w: string, sep: char, t: string)
    requires sep !in w
    ensures SplitOn(w + [sep] + t, sep) == [w] + SplitOn(t, sep)
  {
    if |w| == 0 {
      assert w + [sep] + t == [sep] + t;
      assert ([sep] + t)[1..] == t;
    } else {
      assert (w + [sep] + t)[1..] == w[1..] + [sep] + t;
      SplitWord(w[1..], sep, t);
      assert [w[0]] + w[1..] == w;
    }
  }

  /** A word free of the separator is split into itself alone. */
  lemma {:induction false} SplitNone(w: string, sep: char)
    requires sep !in w
    ensures SplitOn(w, sep) == [w]
  {
    if |w| > 0 {
      SplitNone(w[1..], sep);
      assert [w[0]] + w[1..] == w;
    }
  }

  /** A word free of the separator, followed by nothing or by a separator, is the first piece. */
  lemma {:induction false} SplitFirst(w: string, sep: char, t: string)
    requires sep !in w
    requires t == [] || t[0] == sep
    ensures SplitOn(w + t, sep)[0] == w
  {
    if |w| == 0 {
      assert w + t == t;
    } else {
      assert (w + t)[1..] == w[1..] + t;
      SplitFirst(w[1..], sep, t);
      assert [w[0]] + w[1..] == w;
    }
  }
}
