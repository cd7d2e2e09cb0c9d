/** The numbers that fdt.h and libfdt.h give, as the model has them. */
module Constants {
  import opened Bytes
  import Tokens
  import Blob
  import Writer
  import Phandles
  import References
  import Aliases

  /** The error codes, which functions return negated. */
  lemma ErrorCodes()
    ensures Tokens.ERR_NOTFOUND == 1 && Tokens.ERR_EXISTS == 2 && Tokens.ERR_NOSPACE == 3 && Tokens.ERR_BADOFFSET == 4
    ensures Aliases.ERR_BADPATH == 5 && Phandles.ERR_BADPHANDLE == 6 && Writer.ERR_BADSTATE == 7
    ensures Tokens.ERR_TRUNCATED == 8 && Blob.ERR_BADMAGIC == 9 && Blob.ERR_BADVERSION == 10
    ensures Tokens.ERR_BADSTRUCTURE == 11 && Blob.ERR_BADLAYOUT == 12 && Tokens.ERR_INTERNAL == 13
    ensures References.ERR_BADOVERLAY == 16 && Phandles.ERR_NOPHANDLES == 17 && Writer.ERR_BADFLAGS == 18
  {
  }

  lemma Numbers()
    ensures Blob.FDT_MAGIC == 0xD00D_FEED && Blob.FDT_MAGIC + Blob.FDT_SW_MAGIC == 0xFFFF_FFFF
    ensures Blob.HEADER_SIZE == 40 && Blob.RSV_ENTRY == 16 && Writer.SW_HEADER_SIZE == 48
    ensures Writer.NO_NAME_DEDUP == 1 && Phandles.NO_PHANDLE == 0xFFFF_FFFF
  {
  }

  /** One token of each kind, byte by byte. */
  lemma TokenBytes()
    ensures Tokens.Enc(Tokens.Begin([0x61], [0, 0])) == [0, 0, 0, 1, 0x61, 0, 0, 0]
    ensures Tokens.Enc(Tokens.EndNode) == [0, 0, 0, 2]
    ensures Tokens.Enc(Tokens.Prop(5, [0x61, 0x62], [0, 0])) == [0, 0, 0, 3, 0, 0, 0, 2, 0, 0, 0, 5, 0x61, 0x62, 0, 0]
    ensures Tokens.Enc(Tokens.Nop) == [0, 0, 0, 4] && Tokens.Enc(Tokens.End) == [0, 0, 0, 9]
  {
    assert Be32(1) == [0, 0, 0, 1] && Be32(2) == [0, 0, 0, 2] && Be32(3) == [0, 0, 0, 3];
    assert Be32(5) == [0, 0, 0, 5];
  }
}
