/** The ring of modem response characters and the search in it. */
module GSMController {
  import opened Bytes
  import opened Rings

  predicate ContainsAt(s: seq<byte>, needle: seq<byte>, i: nat) {
    i + |needle| <= |s| && s[i..i + |needle|] == needle
  }

  class ResponseRing {
    const data: array<byte>
    var head: nat
    var count: nat

    ghost predicate Valid()
      reads this
    {
      data.Length == RESPONSE_SIZE && head < RESPONSE_SIZE && count <= RESPONSE_SIZE
    }

    ghost function Contents(): (s: seq<byte>)
      requires Valid()
      reads this, data
      ensures |s| == count
    {
      WindowSize(data[..], head, count);
      Window(data[..], head, count)
    }

    constructor ()
      ensures Valid() && Contents() == [] && fresh(data)
    {
      data := new byte[RESPONSE_SIZE];
      head, count := 0, 0;
    }

    method Clear()
      requires Valid()
      modifies this
      ensures Valid() && Contents() == []
    {
      head, count := 0, 0;
    }

    method Append(c: byte)
      requires Valid()
      modifies this, data
      ensures Valid() && Contents() == LastN(old(Contents()) + [c], RESPONSE_SIZE)
    {
      hide Window;
      ghost var before := data[..];
      if count < RESPONSE_SIZE {
        WindowSnoc(data[..], head, count, c);
        var pos := Advanced(head, count, RESPONSE_SIZE);
        data[pos] := c;
        assert data[..] == before[pos := c];
        count := count + 1;
      } else {
        var next := Advanced(head, 1, RESPONSE_SIZE);
        WindowTail(before, head, count);
        WindowSnoc(before, next, count - 1, c);
        assert Wrap(next + (count - 1), RESPONSE_SIZE) == head;
        data[head] := c;
        assert data[..] == before[head := c];
        head := next;
      }
    }

    /** Whether a nonempty needle is a contiguous part of the response, across the wrap point. */
    method ResponseContains(needle: seq<byte>) returns (found: bool)
      requires Valid()
      ensures found <==> needle != [] && exists i: nat :: ContainsAt(Contents(), needle, i)
    {
      if needle == [] || count < |needle| {
        return false;
      }
      hide Window;
      ghost var s, m := Contents(), |needle|;
      var i: nat := 0;
      while i + |needle| <= count
        invariant forall k: nat | k < i :: !ContainsAt(s, needle, k)
        decreases count - i
      {
        var ok := true;
        var j := 0;
        while j < |needle|
          invariant 0 <= j <= m && ok
          invariant forall k | 0 <= k < j :: s[i + k] == needle[k]
        {
          WindowAt(data[..], head, count, i + j);
          var idx := Advanced(head, i + j, RESPONSE_SIZE);
          if data[idx] != needle[j] {
            ok := false;
            break;
          }
          j := j + 1;
        }
        if ok {
          assert s[i..i + m] == needle;
          assert ContainsAt(Contents(), needle, i);
          return true;
        }
        assert s[i..i + m][j] == s[i + j] != needle[j];
        i := i + 1;
      }
      return false;
    }
  }
}
