/**
 * The few C string conventions the firmware relies on: a byte buffer read as a
 * string ends at its first NUL (strlen, strcpy, "%s"), and a bounded write
 * (snprintf, vsnprintf, a "%.Ns" precision) keeps only a prefix of its output.
 * Bytes are modelled as `char`; only the NUL character is special.
 */
module CStrings {

  const NUL: char := '\0'

  /** True when `p` is a prefix of `s`. */
  predicate IsPrefix(p: seq<char>, s: seq<char>) {
    |p| <= |s| && p == s[..|p|]
  }

  /** The string a C function reads out of the buffer `s`: everything before the first NUL. */
  function UpToNul(s: seq<char>): (r: seq<char>)
    ensures IsPrefix(r, s)
    ensures NUL !in r
    ensures |r| < |s| ==> s[|r|] == NUL
  {
    if s == [] || s[0] == NUL then []
    else [s[0]] + UpToNul(s[1..])
  }

  /** At most the first `n` characters of `s`, as a bounded write keeps them. */
  function Truncate(s: seq<char>, n: nat): (r: seq<char>)
    ensures IsPrefix(r, s)
    ensures |r| == if |s| <= n then |s| else n
  {
    if |s| <= n then s else s[..n]
  }

  /** A string with no NUL in it reads back whole. */
  lemma {:induction false} UpToNulOfPlain(s: seq<char>)
    requires NUL !in s
    ensures UpToNul(s) == s
  {
    if s != [] {
      assert s[0] in s;
      assert NUL !in s[1..] by {
        forall i | 0 <= i < |s[1..]| ensures s[1..][i] != NUL {
          assert s[1..][i] == s[i + 1];
        }
      }
      UpToNulOfPlain(s[1..]);
      assert s == [s[0]] + s[1..];
    }
  }

  /** In a buffer that holds a NUL, the string stops before the end of the buffer. */
  lemma {:induction false} UpToNulStopsInside(s: seq<char>)
    requires NUL in s
    ensures |UpToNul(s)| < |s|
  {
    if s[0] != NUL {
      assert s == [s[0]] + s[1..];
      UpToNulStopsInside(s[1..]);
    }
  }

  /** A NUL-terminated buffer reads back as the text before its terminator, whatever follows. */
  lemma {:induction false} UpToNulOfTerminated(t: seq<char>, rest: seq<char>)
    requires NUL !in t
    ensures UpToNul(t + [NUL] + rest) == t
  {
    if t == [] {
      assert (t + [NUL] + rest)[0] == NUL;
    } else {
      assert t[0] in t;
      assert (t + [NUL] + rest)[1..] == t[1..] + [NUL] + rest;
      assert NUL !in t[1..] by {
        forall i | 0 <= i < |t[1..]| ensures t[1..][i] != NUL {
          assert t[1..][i] == t[i + 1];
        }
      }
      UpToNulOfTerminated(t[1..], rest);
      assert t == [t[0]] + t[1..];
    }
  }

  /**
   * Reading the string out of a bounded write's output is the same as
   * cutting the string itself: the cut and the first NUL commute.
   */
  lemma {:induction false} UpToNulOfTruncate(s: seq<char>, n: nat)
    ensures UpToNul(Truncate(s, n)) == Truncate(UpToNul(s), n)
    decreases n
  {
    if |s| <= n {
      assert Truncate(s, n) == s;
    } else if n == 0 {
      assert Truncate(s, n) == [];
    } else if s[0] == NUL {
      assert Truncate(s, n)[0] == NUL;
    } else {
      var t := Truncate(s, n);
      assert t[0] == s[0] && t[1..] == Truncate(s[1..], n - 1);
      UpToNulOfTruncate(s[1..], n - 1);
      assert UpToNul(s) == [s[0]] + UpToNul(s[1..]);
    }
  }
}
