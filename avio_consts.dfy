/** Constants of the buffered I/O layer and of the headers it includes
    (avio.h, error.h, avcodec.h, limits.h, stdio.h). Those headers are not
    part of this model; the values are the ones those headers define. */
module AvioConsts {

  /** INT_MAX of a 32-bit int. */
  const INT_MAX: int := 0x7fff_ffff

  /** Size of the buffer a protocol context reads into when max_packet_size is 0. */
  const IO_BUFFER_SIZE: int := 32768

  /** Forward seeks at most this far past the buffered data are done by reading. */
  const SHORT_SEEK_THRESHOLD: int := 4096

  /** Bytes of zero padding avio_close_dyn_buf appends (AV_INPUT_BUFFER_PADDING_SIZE). */
  const PADDING_SIZE: int := 8

  /** Size of the write buffer of a dynamic buffer without packet framing. */
  const DYN_IO_BUFFER_SIZE: int := 1024

  /** whence values. */
  const SEEK_SET: int := 0
  const SEEK_CUR: int := 1
  const SEEK_END: int := 2
  const AVSEEK_FORCE: int := 0x2_0000

  /** AV_NOPTS_VALUE, INT64_MIN. */
  const AV_NOPTS_VALUE: int := -0x8000_0000_0000_0000

  /** AVERROR(e) is -e for these POSIX error numbers. */
  const EINVAL: int := 22
  const EPIPE: int := 32

  /** FFERRTAG('E','O','F',' ') and FFERRTAG('I','N','D','A'). */
  const AVERROR_EOF: int := -0x2046_4F45
  const AVERROR_INVALIDDATA: int := -0x4144_4E49

  /** enum AVIODataMarkerType. */
  datatype DataMarker = Header | SyncPoint | BoundaryPoint | Unknown | Trailer
}
