# Irrlicht OpenGL texture path, modelled in Dafny

This project models three parts of Irrlicht's OpenGL texture path.

- **The colour converter** (`CColorConverter`, 1.1 release branch). It has two kinds of routine:
  - image converters that walk a packed source buffer row by row and write a 16-, 24- or 32-bit destination, flipping, mirroring, reordering channels or resizing on the way;
  - `convert_X_to_Y` span converters that turn `n` pixels of one colour format into another.

  Every routine is an imperative method over a Dafny `array`. Each is proved against a specification:
  - for an image converter, an index map (source row and column to destination cell) plus a per-pixel formula;
  - for a span converter, a sequence function of the source.

  Modules `PixelLayout`, `ColorConverter` and `SpanConverter`.
- **The OpenGL texture** (`COpenGLTexture`). It is a class whose fields are those of the source:
  - `Image`, `TextureName`, the upload triple, `HasMipMaps`, `AutomaticMipmapUpdate`;
  - the three framebuffer-object handles.

  GL calls go to a `GLDevice.Device`. The device hands out non-zero names, tracks which texture and framebuffer names are alive, and records every call in a ghost log. Its framebuffer completeness status is an input. The model covers:
  - staging, with power-of-two rounding and R8G8B8 promotion;
  - the upload parameter table and the mipmap policy;
  - the render-target constructor and its unwinding on an incomplete framebuffer;
  - the destructor's teardown order;
  - the getters.

  Module `OpenGLTextures`.
- **The extension handler** (`COpenGLExtensionHandler`, 1.3.NET branch). It is a class holding the `FeatureAvailable` array and the derived flags. The model covers:
  - the non-GLU parser of the extension string;
  - flag derivation and the texture-unit clamp;
  - `queryFeature`, which is a pure function.

  The GL queries (extension string, limits, whether the multitexture entry points loaded) are method inputs. Module `OpenGLExtensions`.

Three behaviours of the source are easy to misread:

- `getOriginalSize` returns the staged image's size, which is power-of-two rounded without NPOT support. It does not return the pre-rounding size. `getSize` returns the source size.
- When the framebuffer is incomplete, the render-target constructor deletes the framebuffer and the depth (and stencil) texture. It keeps the colour texture, which the destructor deletes later.
- The render-target constructor never stores its `size` argument. Both of its textures are allocated with the default 0x0 `ImageSize`.

## Model

| member | source | states |
|---|---|---|
| ColorConverter.Convert1BitTo16BitFlipMirror | branches/releases/1.1/source/Irrlicht/CColorConverter.cpp:15-42 | Each pixel (r, c) goes to destination row height-1-r, same column: a vertical flip only. Its value is 0xffff or 0 by bit 7-(c mod 8) of byte c/8 of source row r. Rows are ceil(width/8) bytes plus pitch. No cell past width*height changes. |
| ColorConverter.MonoRow | branches/releases/1.1/source/Irrlicht/CColorConverter.cpp:21-40 | One row with the bit counter running 7 down to 0. A partly used last byte is skipped whole. Returns the offset just past the row's bytes. Only that destination row changes. |
| ColorConverter.Convert4BitTo16BitFlipMirror | branches/releases/1.1/source/Irrlicht/CColorConverter.cpp:46-76 | Pixel (r, c) goes to row height-1-r, same column. Its colour is the palette entry of the high nibble for even c and the low nibble for odd c. Rows are ceil(width/2) bytes plus pitch. |
| ColorConverter.NibbleRow | branches/releases/1.1/source/Irrlicht/CColorConverter.cpp:54-74 | One row with the nibble shift alternating between 4 and 0. Returns the offset past the row. Only that destination row changes. |
| ColorConverter.Convert8BitTo16Bit | branches/releases/1.1/source/Irrlicht/CColorConverter.cpp:80-98 | As written: pixel (r, c) is stored at (r, c) from offset SkewedRowUnit. That is the true offset for row 0 and pitch bytes later for every other row. |
| ColorConverter.Convert8BitTo16BitCorrected | branches/releases/1.1/source/Irrlicht/CColorConverter.cpp:80-98 | Pixel (r, c) is stored at (r, c) as the palette colour of byte r*(width+pitch)+c. |
| ColorConverter.Convert8BitTo16BitFlipMirror | branches/releases/1.1/source/Irrlicht/CColorConverter.cpp:103-120 | Pixel (r, c) goes to row height-1-r, same column, as the palette colour of its byte. |
| ColorConverter.Convert16BitTo16BitFlipMirror | branches/releases/1.1/source/Irrlicht/CColorConverter.cpp:125-142 | Pixel (r, c) is copied to row height-1-r, same column. The pitch counts 16-bit units. |
| ColorConverter.Convert24BitTo16BitFlipMirror | branches/releases/1.1/source/Irrlicht/CColorConverter.cpp:147-164 | Pixel (r, c) goes to row height-1-r, same column, packed by RGB16 from its bytes in reverse order. |
| ColorConverter.Convert24BitTo16BitColorShuffle | branches/releases/1.1/source/Irrlicht/CColorConverter.cpp:169-185 | Pixel (r, c) goes to (r, width-1-c), a horizontal mirror with no flip, packed from its bytes in order. |
| ColorConverter.Convert24BitTo16BitFlipColorShuffle | branches/releases/1.1/source/Irrlicht/CColorConverter.cpp:190-206 | Pixel (r, c) stays at (r, c). Nothing is flipped. |
| ColorConverter.Convert32BitTo16BitColorShuffle | branches/releases/1.1/source/Irrlicht/CColorConverter.cpp:211-227 | Pixel (r, c) goes to (r, width-1-c), packed from bytes 2, 1, 0 of the 4-byte pixel. |
| ColorConverter.Convert32BitTo16BitFlipMirrorColorShuffle | branches/releases/1.1/source/Irrlicht/CColorConverter.cpp:232-249 | As written: pixel (r, c) is stored at pitch*height + Flipped(r, c). The destination must hold (width+pitch)*height cells, and cells outside that window are unchanged. |
| ColorConverter.Convert32BitTo16BitFlipMirrorColorShuffleCorrected | branches/releases/1.1/source/Irrlicht/CColorConverter.cpp:232-249 | Pixel (r, c) is stored at Flipped(r, c), filling exactly width*height cells. |
| ColorConverter.Reversed32FlipFrom | branches/releases/1.1/source/Irrlicht/CColorConverter.cpp:238-248 | The shared loop, starting from `base`: pixel (r, c) is at base + Flipped(r, c), and nothing outside base .. base+width*height changes. |
| ColorConverter.Convert24BitTo24BitFlipMirrorColorShuffle | branches/releases/1.1/source/Irrlicht/CColorConverter.cpp:254-273 | Pixel (r, c) goes to the three bytes at 3*Flipped(r, c), holding its bytes in reverse order. |
| ColorConverter.Convert32BitTo32BitFlipMirror | branches/releases/1.1/source/Irrlicht/CColorConverter.cpp:311-342 | Pixel (r, c) is copied to row height-1-r, same column. The pitch argument is ignored: rows are `width` pixels apart. |
| ColorConverter.Convert16BitToA8R8G8B8AndResize | branches/releases/1.1/source/Irrlicht/CColorConverter.cpp:279-306 | Nothing changes when a new dimension is 0. Otherwise cell (r, c) holds the expanded source pixel at row floor(r*ch/nh), column floor(c*cw/nw). |
| ColorConverter.ResizeColumn | branches/releases/1.1/source/Irrlicht/CColorConverter.cpp:293-303 | Fills one destination column top to bottom. The row position is kept as an exact numerator. Every other column is unchanged. |
| ColorConverter.ScaledIndex | branches/releases/1.1/source/Irrlicht/CColorConverter.cpp:287-301 | The sampled source row (or column) is always inside the source. |
| ColorConverter.ScaledIndexMonotone | branches/releases/1.1/source/Irrlicht/CColorConverter.cpp:287-301 | Later destination rows sample the same or later source rows. |
| ColorConverter.ScaledIndexSame | branches/releases/1.1/source/Irrlicht/CColorConverter.cpp:287-301 | Without scaling, row i samples row i. |
| ColorConverter.ResizeSameSize | branches/releases/1.1/source/Irrlicht/CColorConverter.cpp:279-306 | Resizing to the current size samples every pixel at its own place. |
| ColorConverter.ExpandA1R5G5B5 | branches/releases/1.1/source/Irrlicht/CColorConverter.cpp:299-300 | The low 3 bits of every colour byte and bits 24-30 are zero. |
| ColorConverter.ExpandTruncate | branches/releases/1.1/source/Irrlicht/CColorConverter.cpp:299-300 | Expansion loses no bit: bit 15 goes to bit 31, and each 5-bit channel goes to the top of its byte. |
| ColorConverter.SkewedRowsLate | branches/releases/1.1/source/Irrlicht/CColorConverter.cpp:84-96 | Every row after the first is read exactly pitch bytes past its true start. |
| ColorConverter.SkewedReadExample | branches/releases/1.1/source/Irrlicht/CColorConverter.cpp:84-96 | A 1x2 image with one padding byte reads its second pixel from offset 3, the padding, instead of 2. |
| ColorConverter.ShiftedPastImage | branches/releases/1.1/source/Irrlicht/CColorConverter.cpp:236 | With any padding, the first source row's last pixel lands past width*height. |
| SpanConverter.ConvertA1R5G5B5ToR8G8B8 | branches/releases/1.1/source/Irrlicht/CColorConverter.cpp:345-360 | The 3n bytes written are blue, green, red per pixel, each 5-bit channel shifted to the top of its byte. Bytes past 3n are unchanged. |
| SpanConverter.ConvertA1R5G5B5ToA8R8G8B8 | branches/releases/1.1/source/Irrlicht/CColorConverter.cpp:362-369 | Pixel i is A1R5G5B5toA8R8G8B8 of source pixel i. Nothing past n changes. |
| SpanConverter.ConvertA1R5G5B5ToA1R5G5B5 | branches/releases/1.1/source/Irrlicht/CColorConverter.cpp:371-374 | The first 2n bytes are the source's. Nothing else changes. |
| SpanConverter.ConvertA1R5G5B5ToR5G6B5 | branches/releases/1.1/source/Irrlicht/CColorConverter.cpp:376-383 | Pixel i is A1R5G5B5toR5G6B5 of source pixel i. |
| SpanConverter.ConvertA8R8G8B8ToR8G8B8 | branches/releases/1.1/source/Irrlicht/CColorConverter.cpp:385-401 | Bytes 3i..3i+2 are bytes 4i..4i+2 of the source. Alpha is dropped. |
| SpanConverter.ConvertA8R8G8B8ToA8R8G8B8 | branches/releases/1.1/source/Irrlicht/CColorConverter.cpp:403-406 | The first 4n bytes are the source's. |
| SpanConverter.ConvertA8R8G8B8ToA1R5G5B5 | branches/releases/1.1/source/Irrlicht/CColorConverter.cpp:408-415 | Pixel i is A8R8G8B8toA1R5G5B5 of source pixel i. |
| SpanConverter.ConvertA8R8G8B8ToR5G6B5 | branches/releases/1.1/source/Irrlicht/CColorConverter.cpp:417-434 | Pixel i packs the top 5/6/5 bits of bytes 4i+2, 4i+1, 4i. |
| SpanConverter.ConvertR8G8B8ToR8G8B8 | branches/releases/1.1/source/Irrlicht/CColorConverter.cpp:436-439 | The first 3n bytes are the source's. |
| SpanConverter.ConvertR8G8B8ToA8R8G8B8 | branches/releases/1.1/source/Irrlicht/CColorConverter.cpp:441-454 | Pixel i is 0xff000000 with red, green and blue from bytes 3i+2, 3i+1, 3i. |
| SpanConverter.ConvertR8G8B8ToA1R5G5B5 | branches/releases/1.1/source/Irrlicht/CColorConverter.cpp:456-473 | Pixel i has the alpha bit set and the top 5 bits of each channel. |
| SpanConverter.ConvertR8G8B8ToR5G6B5 | branches/releases/1.1/source/Irrlicht/CColorConverter.cpp:475-492 | Pixel i packs the top 5/6/5 bits of bytes 3i+2, 3i+1, 3i. |
| SpanConverter.ConvertR5G6B5ToR5G6B5 | branches/releases/1.1/source/Irrlicht/CColorConverter.cpp:494-497 | The first 2n bytes are the source's. |
| SpanConverter.ConvertR5G6B5ToR8G8B8 | branches/releases/1.1/source/Irrlicht/CColorConverter.cpp:499-514 | As written: destination pixel i expands source pixel 4i, because the 16-bit pointer steps by 4. |
| SpanConverter.ConvertR5G6B5ToR8G8B8Corrected | branches/releases/1.1/source/Irrlicht/CColorConverter.cpp:499-514 | Destination pixel i expands source pixel i. |
| SpanConverter.ConvertR5G6B5ToA8R8G8B8 | branches/releases/1.1/source/Irrlicht/CColorConverter.cpp:516-523 | Pixel i is R5G6B5toA8R8G8B8 of source pixel i. |
| SpanConverter.ConvertR5G6B5ToA1R5G5B5 | branches/releases/1.1/source/Irrlicht/CColorConverter.cpp:525-532 | Pixel i is R5G6B5toA1R5G5B5 of source pixel i. |
| SpanConverter.R8G8B8ToA8R8G8B8Opaque | branches/releases/1.1/source/Irrlicht/CColorConverter.cpp:441-454 | Every pixel made from R8G8B8 has alpha 0xff. |
| SpanConverter.R8G8B8RoundTrip | branches/releases/1.1/source/Irrlicht/CColorConverter.cpp:385-454 | R8G8B8 to A8R8G8B8, read as little-endian bytes and converted back to R8G8B8, gives the original 3n bytes. |
| SpanConverter.R5G6B5ExpandPack | branches/releases/1.1/source/Irrlicht/CColorConverter.cpp:475-514 | Expanding an R5G6B5 pixel to bytes and packing it again gives the pixel back. |
| SpanConverter.R5G6B5RoundTripTruncates | branches/releases/1.1/source/Irrlicht/CColorConverter.cpp:475-514 | On n pixels, R8G8B8 through R5G6B5 and back through the corrected one-pixel-step routine clears exactly the low 3, 2 and 3 bits of red, green and blue. |
| SpanConverter.R5G6B5RoundTripIdempotent | branches/releases/1.1/source/Irrlicht/CColorConverter.cpp:475-514 | On n pixels, through the corrected one-pixel-step routine, a second round trip through R5G6B5 changes nothing. |
| SpanConverter.StridedOnePixel | branches/releases/1.1/source/Irrlicht/CColorConverter.cpp:499-514 | On one pixel convert_R5G6B5toR8G8B8 as written and the corrected routine give the same bytes. |
| SpanConverter.StridedRoundTripOnePixel | branches/releases/1.1/source/Irrlicht/CColorConverter.cpp:475-514 | One R8G8B8 pixel through convert_R8G8B8toR5G6B5 and back through convert_R5G6B5toR8G8B8 as written keeps exactly the top 5, 6 and 5 bits of red, green and blue. |
| SpanConverter.A1R5G5B5RoundTrip | branches/releases/1.1/source/Irrlicht/CColorConverter.cpp:345-360 | A1R5G5B5 to R8G8B8 and back to A1R5G5B5 keeps every colour bit and sets alpha. |
| SpanConverter.A8R8G8B8ToR5G6B5ViaR8G8B8 | branches/releases/1.1/source/Irrlicht/CColorConverter.cpp:385-434 | A8R8G8B8 to R5G6B5 equals dropping alpha first and then packing the R8G8B8 result. |
| SpanConverter.StridedReadsEveryFourth | branches/releases/1.1/source/Irrlicht/CColorConverter.cpp:503-512 | As written, byte j of destination pixel i comes from source pixel 4i. |
| SpanConverter.StridedExample | branches/releases/1.1/source/Irrlicht/CColorConverter.cpp:503-512 | For black then white, the as-written routine makes the second pixel black, where one pixel per step makes it white. |
| OpenGLExtensions.StrStr | branches/releases/1.3.NET/source/Irrlicht/COpenGLExtensionHandler.cpp:93 | strstr finds a name exactly when it occurs as a substring. |
| OpenGLExtensions.ShiftOccurs | branches/releases/1.3.NET/source/Irrlicht/COpenGLExtensionHandler.cpp:93 | When the name is not at the front, it occurs iff it occurs one character further on. |
| OpenGLExtensions.Scan | branches/releases/1.3.NET/source/Irrlicht/COpenGLExtensionHandler.cpp:81-98 | The open token starts inside the scanned prefix. |
| OpenGLExtensions.TokensHaveNoSpace | branches/releases/1.3.NET/source/Irrlicht/COpenGLExtensionHandler.cpp:85-97 | Tokens are split at spaces: no token, and not the open tail, contains a space. |
| OpenGLExtensions.TrailingTokenIgnored | branches/releases/1.3.NET/source/Irrlicht/COpenGLExtensionHandler.cpp:85-97 | A trailing run with no following space is never examined. Appending it changes neither the tokens nor where the open token starts. |
| OpenGLExtensions.NoSpaceNoTokens | branches/releases/1.3.NET/source/Irrlicht/COpenGLExtensionHandler.cpp:85-97 | A string without a space advertises nothing, and its open token starts at offset 0. |
| OpenGLExtensions.TokensSplit | branches/releases/1.3.NET/source/Irrlicht/COpenGLExtensionHandler.cpp:85-97 | A space-free word followed by a space is the first token, and the rest is tokenised on its own. With NoSpaceNoTokens this fixes the tokens: exactly the space-ended words, in order. |
| OpenGLExtensions.ScanAfterSpace | branches/releases/1.3.NET/source/Irrlicht/COpenGLExtensionHandler.cpp:85-97 | After a prefix ending in a space, the scan of the rest restarts: its tokens follow the prefix's, and its open token is shifted by the prefix's length. |
| OpenGLExtensions.ClampTextureUnits | branches/releases/1.3.NET/source/Irrlicht/COpenGLExtensionHandler.cpp:368 | The unsigned min with MATERIAL_MAX_TEXTURES. The result is between 0 and 4. A count in range is kept. A negative count, which wraps to a huge unsigned value, becomes 4. |
| OpenGLExtensions.ExtensionHandler.constructor | branches/releases/1.3.NET/source/Irrlicht/COpenGLExtensionHandler.cpp:14-50 | Every feature entry and every named flag is false. The counts are 1. |
| OpenGLExtensions.ExtensionHandler.InitExtensions | branches/releases/1.3.NET/source/Irrlicht/COpenGLExtensionHandler.cpp:59-371 | Entry f is the old value or'ed with "advertised in a space-terminated token". The six flags equal their entries. Multitexturing also needs loaded entry points and at least 2 units. StencilBuffer is the argument. The units are clamped. |
| OpenGLExtensions.ExtensionHandler.ParseExtensions | branches/releases/1.3.NET/source/Irrlicht/COpenGLExtensionHandler.cpp:81-100 | Entries are only set: entry f becomes old(f) or "name f occurs in a token closed by a space". |
| OpenGLExtensions.ExtensionHandler.MatchToken | branches/releases/1.3.NET/source/Irrlicht/COpenGLExtensionHandler.cpp:92-94 | Entry f becomes old(f) or "name f occurs in the token". |
| OpenGLExtensions.ExtensionHandler.DeriveFlags | branches/releases/1.3.NET/source/Irrlicht/COpenGLExtensionHandler.cpp:103-110 | The seven flags equal their feature entries. StencilBuffer is the argument. The counts are unchanged. |
| OpenGLExtensions.ExtensionHandler.StoreLimits | branches/releases/1.3.NET/source/Irrlicht/COpenGLExtensionHandler.cpp:351-369 | Multitexturing is switched off without entry points or with fewer than 2 units. The units are clamped. Lights and indices are stored. |
| OpenGLExtensions.CreateHandler | branches/releases/1.3.NET/source/Irrlicht/COpenGLExtensionHandler.cpp:14-402 | A fresh handler after initExtensions answers every queryFeature exactly as Supports. Supports is an independent reading of the switch: always true for render-to-target, bilinear and mipmaps; the stencil argument; the multitexture rule; "advertised" for the rest; false otherwise. |
| OpenGLExtensions.QueryMatchesSupports | branches/releases/1.3.NET/source/Irrlicht/COpenGLExtensionHandler.cpp:373-402 | Once the table holds exactly the advertised features, queryFeature equals Supports for every feature. |
| GLDevice.Device.GenTextureName | source/Irrlicht/COpenGLTexture.cpp:112 | glGenTextures hands out a fresh non-zero name, now alive, and logs it. |
| GLDevice.Device.GenFramebufferName | source/Irrlicht/COpenGLTexture.cpp:160 | glGenFramebuffersEXT hands out a fresh non-zero name. |
| GLDevice.Device.DeleteTextureName | source/Irrlicht/COpenGLTexture.cpp:215 | glDeleteTextures removes the name from the live set and logs the call. |
| GLDevice.Device.DeleteFramebufferName | source/Irrlicht/COpenGLTexture.cpp:206 | glDeleteFramebuffersEXT removes the name and logs the call. |
| GLDevice.Device.CheckStatus | source/Irrlicht/COpenGLTexture.cpp:26 | Reports the driver's status and logs the query. |
| OpenGLTextures.LeastPowerOfTwoBounds | source/Irrlicht/COpenGLTexture.cpp:375-382 | The result reaches size, is 1 for size <= 1, and the power of two below it is smaller than size. |
| OpenGLTextures.LeastPowerOfTwoUnique | source/Irrlicht/COpenGLTexture.cpp:375-382 | A power of two that reaches size while the one below does not is the least one. |
| OpenGLTextures.PowerOfTwoKept | source/Irrlicht/COpenGLTexture.cpp:375-382 | A power of two is kept as it is. |
| OpenGLTextures.TextureSizeFromSurfaceSize | source/Irrlicht/COpenGLTexture.cpp:375-382 | The doubling loop returns the least power of two that is at least size. |
| OpenGLTextures.StagingProperties | source/Irrlicht/COpenGLTexture.cpp:240-261 | A staged R8G8B8 image becomes A8R8G8B8, and other formats are kept. With NPOT the size is kept. Without it each dimension is a power of two. Either way the staged image is at least as large as the source. |
| OpenGLTextures.UploadParametersAgree | source/Irrlicht/COpenGLTexture.cpp:304-329 | Every table entry is a legal GL combination. GL reads exactly the format's bytes per pixel. The internal format keeps alpha exactly when the colour format has it. |
| OpenGLTextures.UploadCallsFilterAndSize | source/Irrlicht/COpenGLTexture.cpp:298-370 | The texture is bound first. The mipmap min filter is set iff mipmaps are kept. GENERATE_MIPMAP is set iff automatic updates are on. The last call is a full or a partial upload of the staged size with the table's format and type. |
| OpenGLTextures.TeardownOrder | source/Irrlicht/COpenGLTexture.cpp:203-221 | The framebuffer is deleted first and the colour texture last. The depth texture is deleted iff present. No name is deleted twice. |
| OpenGLTextures.CreationGenerates | source/Irrlicht/COpenGLTexture.cpp:111-156 | Creation generates exactly the colour and depth textures and deletes nothing. |
| OpenGLTextures.RenderTargetGenerates | source/Irrlicht/COpenGLTexture.cpp:98-200 | The render-target calls generate exactly two textures and one framebuffer, and end by binding framebuffer 0. |
| OpenGLTextures.RenderTargetUnwinds | source/Irrlicht/COpenGLTexture.cpp:184-197 | On an incomplete framebuffer, exactly the depth texture and the framebuffer are deleted. On a complete one nothing is deleted. |
| OpenGLTextures.CheckFBOStatus | source/Irrlicht/COpenGLTexture.cpp:23-75 | True exactly for the complete status. The status query is logged. |
| OpenGLTextures.OpenGLTexture.FromImage | source/Irrlicht/COpenGLTexture.cpp:78-95 | A missing or empty image leaves no image, no name and no call, and the device's name counter is unchanged. Otherwise it stages the image, generates one name and logs the upload calls for that name, the table triple and the mipmap policy. |
| OpenGLTextures.OpenGLTexture.GetImageData | source/Irrlicht/COpenGLTexture.cpp:224-293 | ImageSize becomes the source size when there is an image. Image becomes the staged image exactly when the image is present with non-zero dimensions. |
| OpenGLTextures.OpenGLTexture.CopyTexture | source/Irrlicht/COpenGLTexture.cpp:298-370 | The triple is the table entry. Automatic updates are on iff mipmaps were wanted and the driver supports them. HasMipMaps equals that. The log grows by UploadCalls. |
| OpenGLTextures.OpenGLTexture.RegenerateMipMapLevels | source/Irrlicht/COpenGLTexture.cpp:475-480 | Mipmaps are kept only with automatic updates. |
| OpenGLTextures.OpenGLTexture.RenderTarget | source/Irrlicht/COpenGLTexture.cpp:98-200 | Names are the colour texture, +1 depth and +2 framebuffer. The stencil handle aliases depth when packed and is 0 otherwise. On an incomplete status the handles are 0 and only the colour texture stays alive. The log is RenderTargetCalls. The device's framebuffer status is unchanged, so the outcome is the one the driver was set up with. |
| OpenGLTextures.OpenGLTexture.CreateColorAndDepth | source/Irrlicht/COpenGLTexture.cpp:111-156 | Two textures are generated and set up, the depth one packed with stencil when asked. |
| OpenGLTextures.OpenGLTexture.CreateFramebuffer | source/Irrlicht/COpenGLTexture.cpp:158-184 | One framebuffer is generated and the three textures are attached, followed by the completeness query. |
| OpenGLTextures.OpenGLTexture.FinishFramebuffer | source/Irrlicht/COpenGLTexture.cpp:184-198 | On an incomplete status the handles are deleted and zeroed. Framebuffer 0 is then bound. |
| OpenGLTextures.OpenGLTexture.DeleteHandles | source/Irrlicht/COpenGLTexture.cpp:188-196 | Deletes the framebuffer, the depth texture and a distinct stencil texture, each only when non-zero, and zeroes all three. |
| OpenGLTextures.OpenGLTexture.Release | source/Irrlicht/COpenGLTexture.cpp:203-221 | The destructor: TeardownCalls, all three handles 0, the colour and depth names dead, the image dropped. The name counter and the framebuffer status are unchanged. |
| OpenGLTextures.OpenGLTexture.Lock | source/Irrlicht/COpenGLTexture.cpp:386-392 | The staged image (never R8G8B8, of the original size) or none. None exactly when the pitch is 0 and there is no image. |
| OpenGLTextures.OpenGLTexture.Unlock | source/Irrlicht/COpenGLTexture.cpp:397-402 | Re-uploads into existing storage (a partial upload) with the copyTexture policy. |
| OpenGLTextures.OpenGLTexture.GetOriginalSize | source/Irrlicht/COpenGLTexture.cpp:407-413 | Never smaller than getSize. It equals getSize without an image. |
| OpenGLTextures.OpenGLTexture.GetColorFormat | source/Irrlicht/COpenGLTexture.cpp:434-440 | Never R8G8B8. It is the staged image's format when there is one. |
| OpenGLTextures.OpenGLTexture.GetPitch | source/Irrlicht/COpenGLTexture.cpp:445-451 | Bytes per pixel of the colour format times the staged width, or 0 without an image. |
| OpenGLTextures.OpenGLTexture.IsFrameBufferObject | source/Irrlicht/COpenGLTexture.cpp:514-517 | True iff the framebuffer handle ColorFrameBuffer is non-zero, as the source tests. Under Valid() that is equivalent to holding the depth handle, and then the framebuffer and depth names are alive. |
| OpenGLTextures.OpenGLTexture.BindFrameBufferObject | source/Irrlicht/COpenGLTexture.cpp:520-526 | Binds the framebuffer only when there is one. |
| OpenGLTextures.OpenGLTexture.UnbindFrameBufferObject | source/Irrlicht/COpenGLTexture.cpp:529-535 | Binds framebuffer 0 only when there is a framebuffer. |

## Left out

- GL, GLU, WGL and GLX calls are not executed. They are entries of the device's log, and the framebuffer status is an input.
- Logging, `printf` and `testGLError` are left out. They only report.
- Pixel contents of textures are not modelled: an image is its colour format and its size.
  - The scaled copy in getImageData (source/Irrlicht/COpenGLTexture.cpp:263-289) uses float steps and is left out.
  - The staged image's format and size are modelled in full.
- Convert16BitToA8R8G8B8AndResize: the float steps are read as exact rationals. The sampled row and column are floor(i*n/m). Float rounding of the step accumulation is not modelled.
- Version parsing and MaxAnisotropy in initExtensions use floating point and are left out.
- The GLU branch of initExtensions, entry-point loading and the swap-interval pointers are foreign symbol lookups. Whether the multitexture entry points loaded is a boolean input.
- The feature table holds only the 13 extensions the handler refers to, not the whole upstream list. Names are matched as the source matches them.
- Colour helpers from SColor.h (RGB16, X8R8G8B8toA1R5G5B5, A1R5G5B5toA8R8G8B8, A1R5G5B5toR5G6B5, A8R8G8B8toA1R5G5B5, R5G6B5toA8R8G8B8, R5G6B5toA1R5G5B5) are function parameters, because SColor.h is not part of this model.
- The `__BIG_ENDIAN__` branch of convert32BitTo32BitFlipMirror is left out. Memory is little-endian.
- The unreachable code after the early return in regenerateMipMapLevels is left out.
- The `default` case of copyTexture's format switch cannot be reached: the colour formats are exactly the four that the switch handles.
- TextureSizeFromSurfaceSize requires size <= 2^30. Beyond that the signed 32-bit shift overflows and the source loop does not end.
- Texture and framebuffer names come from one counter on the device. GL may reuse names; here names are never reused.
- getSize, getOpenGLTextureName, hasMipMaps and getDriverType return a field or a constant. They are read as the fields ImageSize, TextureName and HasMipMaps.
- R5G6B5RoundTripTruncates: the n-pixel round trip goes through the corrected convert_R5G6B5toR8G8B8. The routine as written satisfies it only for one pixel (StridedRoundTripOnePixel), because it reads every fourth source pixel.
- R5G6B5RoundTripIdempotent: stated through the corrected convert_R5G6B5toR8G8B8, for the same reason.
- OpenGLTextures.OpenGLTexture.FromImage requires a driver whenever the image is stageable, because copyTexture dereferences it. RenderTarget always requires one.
- OpenGLTextures.OpenGLTexture.Unlock requires an image, because copyTexture dereferences it. A texture with an image always has a driver (part of Valid()), so nothing more is required.
- Widths, heights, pitches and pixel counts of the converters are `nat`. The source takes `s32`: a negative width or height makes its loops do nothing, and a negative pitch walks rows backwards. Neither case is modelled.
- The texture is modelled with GL_EXT_framebuffer_object and GL_EXT_packed_depth_stencil defined and DISABLE_MIPMAPPING not defined (source/Irrlicht/COpenGLTexture.cpp:25, 120, 158, 331). The other preprocessor configurations are not modelled.
- AutomaticMipmapUpdate is not initialised by the render-target constructor or by the image constructor without an image. SeparateSpecularColorExtension is not initialised by the handler's constructor. The model leaves both unconstrained.

## Findings

| source | as written | input that shows it | evidently intended | confidence | as-written member | corrected member |
|---|---|---|---|---|---|---|
| branches/releases/1.1/source/Irrlicht/CColorConverter.cpp:84-96 | Row y is read from y*lineWidth + pitch for every y >= 1, a pitch too late | width 1, height 2, pitch 1: the second pixel is read from offset 3, the padding, instead of 2 | row y read from y*(width+pitch) | not executed | ColorConverter.SkewedReadExample | ColorConverter.Convert8BitTo16BitCorrected |
| branches/releases/1.1/source/Irrlicht/CColorConverter.cpp:236 | The destination pointer starts at (width+pitch)*height | any pitch > 0: the last pixel of the first source row lands past width*height | start at width*height, as the other flip routines do | not executed | ColorConverter.ShiftedPastImage | ColorConverter.Convert32BitTo16BitFlipMirrorColorShuffleCorrected |
| branches/releases/1.1/source/Irrlicht/CColorConverter.cpp:511 | The u16 source pointer steps by 4 per pixel | pixels [black, white, ...]: the second destination pixel is taken from source pixel 4 | step by one pixel | not executed | SpanConverter.StridedExample | SpanConverter.ConvertR5G6B5ToR8G8B8Corrected |
