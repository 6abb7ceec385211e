/** A path assembled in one fixed buffer, and what C functions read from it. */
module FixedStr {
  predicate NulFree(s: string) {
    forall i | 0 <= i < |s| :: s[i] != '\0'
  }

  /** The string a C function reads from a buffer: the characters before the first NUL. */
  function CString(s: string): string {
    if s == [] || s[0] == '\0' then [] else [s[0]] + CString(s[1..])
  }

  /** The buffer begins with `s` and a NUL after it. */
  predicate Spells(buff: string, s: string) {
    |s| < |buff| && buff[..|s|] == s && buff[|s|] == '\0'
  }

  lemma {:induction false} SpellsCString(buff: string, s: string)
    requires Spells(buff, s) && NulFree(s)
    ensures CString(buff) == s
    decreases |s|
  {
    if s != [] {
      assert buff[0] == buff[..|s|][0] && buff[1..][..|s| - 1] == s[1..];
      SpellsCString(buff[1..], s[1..]);
    }
  }

  lemma SpellsPrefix(buff: string, s: string, t: string)
    requires Spells(buff, s) && t <= s
    ensures |t| < |buff| && buff[..|t|] == t
  {
  }

  /** The buffer; a node is the index of the NUL that ends the string it stands for. */
  class PathBuffer {
    const buff: array<char>

    constructor (buff: array<char>)
      ensures this.buff == buff
    {
      this.buff := buff;
    }

    /**
     Writes `sv` behind the node `p`. What does not fit is cut off without notice; the last cell
     always keeps room for the NUL.
     */
    method Append(p: nat, sv: string) returns (q: nat)
      requires p < buff.Length
      modifies buff
      ensures q == if p + |sv| < buff.Length then p + |sv| else buff.Length - 1
      ensures buff[..] == old(buff[..p]) + sv[..q - p] + ['\0'] + old(buff[q + 1..])
    {
      var pp := p + |sv| + 1;
      if pp > buff.Length {
        pp := buff.Length;
      }
      ghost var buff0 := buff[..];
      forall k | 0 <= k < pp - p - 1 {
        buff[p + k] := sv[k];
      }
      buff[pp - 1] := '\0';
      return pp - 1;
    }

    function End(p: nat): char
      requires p < buff.Length
      reads buff
    {
      buff[p]
    }

    method SetEnd(p: nat)
      requires p < buff.Length
      modifies buff
      ensures buff[..] == old(buff[..])[p := '\0']
    {
      buff[p] := '\0';
    }

    function Str(): string
      reads buff
    {
      CString(buff[..])
    }
  }

  /** Appending spells the longer string exactly when it fits. */
  lemma AppendSpells(before: string, after: string, s: string, sv: string, q: nat)
    requires Spells(before, s)
    requires q == if |s| + |sv| < |before| then |s| + |sv| else |before| - 1
    requires after == before[..|s|] + sv[..q - |s|] + ['\0'] + before[q + 1..]
    ensures Spells(after, s + sv) <==> |s| + |sv| < |before|
  {
    if |s| + |sv| < |before| {
      assert after[..q] == s + sv;
    }
  }
}
