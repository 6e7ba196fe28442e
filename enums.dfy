/**
 * The render enumerations (render/enum.h, render/enum.cpp): the size tables and
 * the offset mapping of texture attachments. The OpenGL constants themselves are
 * opaque here; GlAttachment names which constant a case returns.
 */
module RenderEnums {

  datatype ScalarType = Int8 | Int16 | Int32 | UInt8 | UInt16 | UInt32 | Float

  datatype Primitive = Points | Lines | Triangles | Quads

  datatype TextureFormat =
    | FormatNone | RGBA8 | RGB8 | RG8 | RGB16F | RGB32F | RGBA16F | RGBA32F
    | Red8 | Red16 | Red32 | Red32Int | Alpha8 | Alpha16
    | Depth16 | Depth24 | Depth32 | Depth24Stencil8

  /** internalEnumSize(Type): bytes per element. */
  function TypeSize(t: ScalarType): nat
  {
    match t
    case Int8 => 1
    case Int16 => 2
    case Int32 => 4
    case UInt8 => 1
    case UInt16 => 2
    case UInt32 => 4
    case Float => 4
  }

  /** internalEnumSize(Primitive): vertices per primitive. */
  function PrimitiveSize(p: Primitive): nat
  {
    match p
    case Points => 1
    case Lines => 2
    case Triangles => 3
    case Quads => 4
  }

  /** internalEnumSize(TextureFormat): bits per texel, 0 for the cases the switch leaves to default. */
  function FormatBits(f: TextureFormat): nat
  {
    match f
    case RGBA8 => 32
    case RGB8 => 24
    case RG8 => 16
    case Red8 => 8
    case Red16 => 16
    case Red32 => 32
    case Red32Int => 32
    case Alpha8 => 8
    case Alpha16 => 16
    case Depth16 => 16
    case Depth24 => 24
    case Depth32 => 32
    case _ => 0
  }

  /** Reference description of a format: its channel count and bits per channel. */
  function Channels(f: TextureFormat): nat
  {
    match f
    case FormatNone => 0
    case RGBA8 | RGBA16F | RGBA32F => 4
    case RGB8 | RGB16F | RGB32F => 3
    case RG8 => 2
    case Depth24Stencil8 => 2
    case _ => 1
  }

  function ChannelBits(f: TextureFormat): nat
  {
    match f
    case FormatNone => 0
    case RGBA8 | RGB8 | RG8 | Red8 | Alpha8 => 8
    case RGB16F | RGBA16F | Red16 | Alpha16 | Depth16 => 16
    case Depth24 => 24
    case RGB32F | RGBA32F | Red32 | Red32Int | Depth32 => 32
    case Depth24Stencil8 => 16
  }

  predicate IsFloatFormat(f: TextureFormat)
  {
    f == RGB16F || f == RGB32F || f == RGBA16F || f == RGBA32F
  }

  /** Signed and unsigned integer types of one width have one size; the size is the width in bytes. */
  lemma TypeSizeIsWidth(t: ScalarType)
    ensures TypeSize(Int8) == TypeSize(UInt8) == 1
    ensures TypeSize(Int16) == TypeSize(UInt16) == 2
    ensures TypeSize(Int32) == TypeSize(UInt32) == TypeSize(Float) == 4
    ensures TypeSize(t) in {1, 2, 4}
  {
  }

  /** Points, lines, triangles and quads have 1, 2, 3 and 4 vertices: one more than their ordinal. */
  lemma PrimitiveSizeIsVertexCount(p: Primitive)
    ensures PrimitiveSize(p) == 1 + (match p case Points => 0 case Lines => 1 case Triangles => 2 case Quads => 3)
  {
  }

  /**
   * The table gives channels times bits per channel for every integer, alpha and
   * depth format, and 0 exactly for NONE, the float formats and DEPTH24STENCIL8.
   * (RED16 and RED32 are counted here although internalEnum maps them to the
   * float formats R16F and R32F.)
   */
  lemma FormatBitsIsChannelsTimesWidth(f: TextureFormat)
    ensures FormatBits(f) == 0 <==> f == FormatNone || IsFloatFormat(f) || f == Depth24Stencil8
    ensures FormatBits(f) != 0 ==> FormatBits(f) == Channels(f) * ChannelBits(f)
  {
  }

  // ---------------------------------------------------------------------------
  // internalEnum(TextureAttachment)
  // ---------------------------------------------------------------------------

  /** The enumerators' values; COLOR + k is a valid colour attachment for k < 16. */
  const DEPTH: int := 0
  const STENCIL: int := 1
  const COLOR: int := 2

  /** The OpenGL attachment constant a case returns: GL_COLOR_ATTACHMENT0 + k is Color(k). */
  datatype GlAttachment = GlNone | GlDepth | GlStencil | GlColor(k: nat)

  function InternalAttachment(attachment: int): GlAttachment
  {
    if attachment == DEPTH then GlDepth
    else if attachment == STENCIL then GlStencil
    else if attachment == COLOR then GlColor(0)
    else if attachment > COLOR && attachment < COLOR + 16 then GlColor(attachment - COLOR)
    else GlNone
  }

  /** The attachment value that maps to g: the inverse of InternalAttachment. */
  function AttachmentOf(g: GlAttachment): int
  {
    match g
    case GlNone => -1
    case GlDepth => DEPTH
    case GlStencil => STENCIL
    case GlColor(k) => COLOR + k
  }

  /** COLOR + k maps to colour attachment k for k < 16; everything outside 0..17 maps to NONE. */
  lemma AttachmentMapping(attachment: int)
    ensures InternalAttachment(attachment).GlColor? <==> COLOR <= attachment < COLOR + 16
    ensures InternalAttachment(attachment).GlColor? ==> InternalAttachment(attachment).k == attachment - COLOR
    ensures InternalAttachment(attachment) == GlDepth <==> attachment == DEPTH
    ensures InternalAttachment(attachment) == GlStencil <==> attachment == STENCIL
    ensures InternalAttachment(attachment) == GlNone <==> attachment < 0 || attachment >= COLOR + 16
  {
  }

  /** Every attachment constant except NONE comes from exactly one value. */
  lemma AttachmentRoundTrip(attachment: int, g: GlAttachment)
    ensures InternalAttachment(attachment) != GlNone ==> AttachmentOf(InternalAttachment(attachment)) == attachment
    ensures g != GlNone && (g.GlColor? ==> g.k < 16) ==> InternalAttachment(AttachmentOf(g)) == g
  {
  }
}
