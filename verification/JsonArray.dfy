/** json_array_t: a table that grows, with elements moved about in place. */
module JsonArray {

  /** memmove: `count` elements from `src` on go to `dest`.  What is read behind the end of the table
      is not the program's: it is `beyond`. */
  method Move<V>(table: array<V>, dest: nat, src: nat, count: nat, beyond: V) returns (ghost overread: bool)
    requires dest + count <= table.Length
    modifies table
    ensures overread <==> count > 0 && src + count > table.Length
    ensures forall i :: 0 <= i < table.Length ==>
              table[i] == if dest <= i < dest + count
                          then if src + (i - dest) < table.Length then old(table[src + (i - dest)]) else beyond
                          else old(table[i])
  {
    overread := count > 0 && src + count > table.Length;
    forall i | 0 <= i < count {
      table[dest + i] := if src + i < table.Length then table[src + i] else beyond;
    }
  }

  /** memcpy between two tables, or from one part of a table to another that does not overlap it. */
  method Copy<V>(dest: array<V>, dpos: nat, src: array<V>, spos: nat, count: nat)
    requires dpos + count <= dest.Length && spos + count <= src.Length
    requires dest == src ==> spos + count <= dpos
    modifies dest
    ensures forall i :: 0 <= i < dest.Length ==>
              dest[i] == if dpos <= i < dpos + count then old(src[spos + (i - dpos)]) else old(dest[i])
  {
    forall i | 0 <= i < count {
      dest[dpos + i] := src[spos + i];
    }
  }

  class JsonArray<V(0)> {
    var size: nat
    var entries: nat
    var table: array<V>

    ghost predicate Valid()
      reads this
    {
      entries <= size == table.Length && size > 0
    }

    ghost function Contents(): (s: seq<V>)
      requires Valid()
      reads this, table
      ensures |s| == entries
    {
      table[..entries]
    }

    constructor ()
      ensures Valid() && fresh(table) && Contents() == [] && size == 8
    {
      entries, size := 0, 8;
      table := new V[8];
    }

    /** json_array_grow: room for `amount` more.  The old table is given back if the new one has not been
        filled from it. */
    method Grow(amount: nat, copy: bool) returns (was: array<V>)
      requires Valid()
      modifies this`size, this`table
      ensures Valid() && entries + amount <= size
      ensures if entries + amount <= old(size) then table == old(table) == was && size == old(size)
              else fresh(table) && size == (if old(size) > amount then 2 * old(size) else old(size) + amount) &&
                   (copy ==> was == table && Contents() == old(Contents())) && (!copy ==> was == old(table))
    {
      if entries + amount <= size {
        return table;
      }
      was := table;
      size := if size > amount then size * 2 else size + amount;
      table := new V[size];
      if copy {
        Copy(table, 0, was, 0, entries);
        assert table[..entries] == was[..entries];
        return table;
      }
    }

    /** json_array_append_new, on the array */
    method Append(value: V)
      requires Valid()
      modifies this, table
      ensures Valid() && (table == old(table) || fresh(table))
      ensures Contents() == old(Contents()) + [value]
      ensures old(entries) < old(size) ==> size == old(size)
    {
      var was := Grow(1, true);
      ghost var front := table[..entries];
      assert front == old(Contents());
      table[entries] := value;
      entries := entries + 1;
      assert table[..entries - 1] == front;
      assert table[..entries] == front + [value];
    }

    /** json_array_insert_new, on the array */
    method Insert(index: nat, value: V) returns (r: int)
      requires Valid()
      modifies this, table
      ensures Valid() && (table == old(table) || fresh(table))
      ensures r == if index <= old(entries) then 0 else -1
      ensures r == 0 ==> Contents() == old(Contents())[..index] + [value] + old(Contents())[index..]
      ensures r == -1 ==> Contents() == old(Contents())
    {
      if index > entries {
        return -1;
      }
      var was := Grow(1, false);
      OpenGap(table, was, index, entries);
      table[index] := value;
      entries := entries + 1;
      r := 0;
    }

    /** The assignment of json_array_set_new. */
    method Set(index: nat, value: V) returns (r: int)
      requires Valid()
      modifies table
      ensures r == if index < entries then 0 else -1
      ensures Contents() == if r == 0 then old(Contents())[index := value] else old(Contents())
    {
      if index >= entries {
        return -1;
      }
      table[index] := value;
      r := 0;
    }

    /** json_array_remove, on the array.  It moves one element too many: when the table is full, that one is
        read from behind its end.  The contents are right all the same. */
    method Remove(index: nat, beyond: V) returns (r: int, ghost overread: bool)
      requires Valid()
      modifies this`entries, table
      ensures Valid() && r == if index < old(entries) then 0 else -1
      ensures Contents() == if r == 0 then old(Contents())[..index] + old(Contents())[index + 1..] else old(Contents())
      ensures overread <==> r == 0 && old(entries) == size
    {
      overread := false;
      if index >= entries {
        return -1, false;
      }
      ghost var s := Contents();
      overread := Move(table, index, index + 1, entries - index, beyond);
      entries := entries - 1;
      assert table[..entries] == s[..index] + s[index + 1..];
      r := 0;
    }

    /** json_array_clear, on the array */
    method Clear()
      requires Valid()
      modifies this`entries
      ensures Valid() && Contents() == []
    {
      entries := 0;
    }

    /** json_array_extend, on the arrays, which may be one and the same. */
    method Extend(other: JsonArray<V>)
      requires Valid() && other.Valid() && (this == other || table != other.table)
      modifies this, table
      ensures Valid() && (table == old(table) || fresh(table))
      ensures Contents() == old(Contents()) + old(other.Contents())
    {
      ghost var s, t := Contents(), other.Contents();
      var was := Grow(other.entries, true);
      assert table[..entries] == s;
      assert other.table[..other.entries] == t;
      var n := other.entries;
      CopyBehind(table, entries, other.table, n);
      entries := entries + n;
    }
  }

  /** Both parts go to a new table. */
  method CopyParts<V>(table: array<V>, was: array<V>, index: nat, entries: nat)
    requires index <= entries < table.Length && entries <= was.Length && was != table
    modifies table
    ensures table[..index] == was[..index] && table[index + 1..entries + 1] == was[index..entries]
  {
    Copy(table, 0, was, 0, index);
    assert table[..index] == was[..index];
    label First:
    Copy(table, index + 1, was, index, entries - index);
    assert table[..index] == old@First(table[..index]);
  }

  /** The elements from `index` on go one place up, in the old table or on the way to a new one. */
  method OpenGap<V>(table: array<V>, was: array<V>, index: nat, entries: nat)
    requires index <= entries < table.Length && entries <= was.Length
    modifies table
    ensures table[..index] == old(was[..index]) && table[index + 1..entries + 1] == old(was[index..entries])
  {
    if was != table {
      CopyParts(table, was, index, entries);
    } else {
      var at := table[index];
      ghost var overread := Move(table, index + 1, index, entries - index, at);
      assert !overread;
    }
  }

  /** Copying the first `n` elements of a table behind the first `at` of a table, perhaps the same. */
  method CopyBehind<V>(dest: array<V>, at: nat, src: array<V>, n: nat)
    requires at + n <= dest.Length && n <= src.Length && (dest == src ==> n <= at)
    modifies dest
    ensures dest[..at + n] == old(dest[..at]) + old(src[..n])
  {
    Copy(dest, at, src, 0, n);
  }

  /** Eight elements fill a new array; when one is removed then, the table is overread. */
  method FullAfterEight<V(0)>(values: seq<V>) returns (a: JsonArray<V>)
    requires |values| == 8
    ensures a.Valid() && a.Contents() == values && a.entries == a.size
  {
    a := new JsonArray<V>();
    for i := 0 to 8
      invariant a.Valid() && fresh(a) && fresh(a.table) && a.entries == i && a.size == 8
      invariant a.Contents() == values[..i]
    {
      a.Append(values[i]);
    }
    assert values[..8] == values;
  }
}
