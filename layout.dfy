/**
 * Linear storage of a two-index table: entry (major, minor) at offset major * stride + minor,
 * with 0 <= minor < stride. RBC_C2.c stores row i of an n x m matrix at offset i * m of one
 * block (major = capital index, stride = m); inside_loop_mex.cpp stores MATLAB's
 * column-major n x m matrices with entry (c, p) at p * n + c (major = productivity index,
 * stride = n).
 */
module Layout {

  /** The offset of entry (major, minor). */
  function Offset(major: nat, minor: nat, stride: nat): (offset: nat) {
    major * stride + minor
  }

  lemma MulMonotone(a: nat, b: nat, s: nat)
    requires a <= b
    ensures a * s <= b * s
  {
  }

  /** The block of an earlier major index ends before the block of a later one starts. */
  lemma BlockBefore(major1: nat, major2: nat, stride: nat)
    requires major1 < major2
    ensures Offset(major1, 0, stride) + stride <= Offset(major2, 0, stride)
  {
    MulMonotone(major1 + 1, major2, stride);
  }

  /** Every entry of a count x stride table lies inside a block of count * stride entries. */
  lemma OffsetInBlock(major: nat, minor: nat, stride: nat, count: nat)
    requires major < count && minor < stride
    ensures Offset(major, minor, stride) < count * stride
  {
    MulMonotone(major + 1, count, stride);
  }

  /** Distinct entries have distinct offsets: no two cells of a table share storage. */
  lemma OffsetInjective(major1: nat, minor1: nat, major2: nat, minor2: nat, stride: nat)
    requires minor1 < stride && minor2 < stride
    requires Offset(major1, minor1, stride) == Offset(major2, minor2, stride)
    ensures major1 == major2 && minor1 == minor2
  {
    if major1 < major2 {
      MulMonotone(major1 + 1, major2, stride);
    } else if major2 < major1 {
      MulMonotone(major2 + 1, major1, stride);
    }
  }
}
